/**
 * Coded-mask imaging algebra: the forward model (sky to detector), balanced
 * cross-correlation deconvolution (detector to sky and variance), the
 * aperture/efficiency normalisation, and the signal-to-noise map.
 */
module SkyRec {
  import opened Grids
  import opened Extended
  import opened Correlation
  import opened Cameras

  /** The camera's invariants: its shapes agree and the sums the reconstruction divides by are not zero. */
  predicate ValidCamera(cam: Camera)
  {
    ShapesAgree(cam) && SumsDefined(cam)
  }

  lemma ValidCameraNonEmpty(cam: Camera)
    requires ValidCamera(cam)
    ensures NonEmpty(cam.mask) && NonEmpty(cam.decoder) && NonEmpty(cam.bulk)
    ensures ShapeOf(cam.mask) == cam.maskShape && ShapeOf(cam.bulk) == cam.detectorShape
  {
  }

  // ---- forward model ----

  /** `transmitted_sky_image`: the sky attenuated by the mask's real open fraction. */
  function TransmittedSkyImage(sky: Matrix, cam: Camera): Matrix
  {
    Scale(cam.openFraction, sky)
  }

  /**
   * The operands scipy and numpy accept in `sky_encoding`: both non-empty and
   * rectangular, one dominating the other, and the valid-mode result of the
   * bulk's shape (numpy's size-1 broadcasting is not modelled).
   */
  predicate Encodable(sky: Matrix, cam: Camera)
  {
    NonEmpty(sky) && NonEmpty(cam.mask) && Dominates(cam.mask, sky) &&
    IsGrid(cam.bulk, Dist(|cam.mask|, |sky|) + 1, Dist(Cols(cam.mask), Cols(sky)) + 1)
  }

  /**
   * Detector cell `(t, u)` of the encoding: the sky seen through the mask at
   * the shift of that cell, times the bulk there.
   */
  function EncodedCell(sky: Matrix, cam: Camera, t: nat, u: nat): real
    requires t < |cam.bulk| && u < |cam.bulk[t]|
  {
    Overlap(cam.mask, sky, |sky| - Min(|cam.mask|, |sky|) - t, Cols(sky) - Min(Cols(cam.mask), Cols(sky)) - u) *
    cam.bulk[t][u]
  }

  /**
   * `sky_encoding`: the detector image of `sky`, cell by cell; None where
   * scipy or numpy raise.
   */
  function SkyEncoding(sky: Matrix, cam: Camera): (r: Option<Matrix>)
    ensures r.Some? <==> Encodable(sky, cam)
    ensures r.Some? ==> IsGrid(r.value, |cam.bulk|, Cols(cam.bulk))
    ensures r.Some? ==> forall t, u :: 0 <= t < |cam.bulk| && 0 <= u < Cols(cam.bulk) ==>
              r.value[t][u] == EncodedCell(sky, cam, t, u)
  {
    if !Encodable(sky, cam) then None
    else
      Some(seq(|cam.bulk|, t requires 0 <= t < |cam.bulk| => seq(Cols(cam.bulk), u requires 0 <= u < Cols(cam.bulk) =>
        EncodedCell(sky, cam, t, u))))
  }

  /**
   * The encoding is `correlate(mask, sky, mode='valid') * bulk`: defined
   * exactly where the valid-mode correlation exists and has the bulk's shape,
   * and then equal to its cell-wise product with the bulk.
   */
  lemma EncodingIsMaskedCorrelation(sky: Matrix, cam: Camera)
    requires NonEmpty(sky) && NonEmpty(cam.mask)
    ensures SkyEncoding(sky, cam).Some? <==>
              ValidCorrelate(cam.mask, sky).Some? &&
              IsGrid(cam.bulk, |ValidCorrelate(cam.mask, sky).value|, Cols(ValidCorrelate(cam.mask, sky).value))
    ensures SkyEncoding(sky, cam).Some? ==>
              SkyEncoding(sky, cam).value == Product(ValidCorrelate(cam.mask, sky).value, cam.bulk)
  {
    if Encodable(sky, cam) {
      var e, v := SkyEncoding(sky, cam).value, ValidCorrelate(cam.mask, sky).value;
      var p := Product(v, cam.bulk);
      assert |e| == |p|;
      forall t | 0 <= t < |e| ensures e[t] == p[t] {
        assert |e[t]| == |p[t]|;
        forall u | 0 <= u < |e[t]| ensures e[t][u] == p[t][u] {
          ValidCell(cam.mask, sky, t, u, |sky| - Min(|cam.mask|, |sky|) - t, Cols(sky) - Min(Cols(cam.mask), Cols(sky)) - u);
        }
      }
    }
  }

  /** With a valid camera every sky of the camera's sky shape encodes to a detector-shaped image. */
  lemma EncodingDefined(sky: Matrix, cam: Camera)
    requires ValidCamera(cam) && HasShape(sky, cam.skyShape)
    ensures SkyEncoding(sky, cam).Some?
    ensures HasShape(SkyEncoding(sky, cam).value, cam.detectorShape)
  {
    ValidCameraNonEmpty(cam);
    assert |sky| >= 1 && |sky[0]| == cam.skyShape.cols;
    assert Dist(|cam.mask|, |sky|) + 1 == cam.detectorShape.rows;
    assert Dist(Cols(cam.mask), Cols(sky)) + 1 == cam.detectorShape.cols;
  }

  lemma TimesCombination(k: real, p1: real, p2: real, b: real)
    ensures (k * p1 + p2) * b == k * (p1 * b) + p2 * b
  {
  }

  /** One detector cell of the encoding is linear in the sky. */
  lemma EncodedCellLinear(cam: Camera, k: real, s1: Matrix, s2: Matrix, z: Matrix, t: nat, u: nat)
    requires IsCombination(z, k, s1, s2)
    requires t < |cam.bulk| && u < |cam.bulk[t]|
    ensures EncodedCell(z, cam, t, u) == k * EncodedCell(s1, cam, t, u) + EncodedCell(s2, cam, t, u)
  {
    assert |s1| == |s2| == |z| && Cols(s1) == Cols(s2) == Cols(z);
    assert Min(|cam.mask|, |z|) == Min(|cam.mask|, |s1|) == Min(|cam.mask|, |s2|);
    assert Min(Cols(cam.mask), Cols(z)) == Min(Cols(cam.mask), Cols(s1)) == Min(Cols(cam.mask), Cols(s2));
    var dx := |z| - Min(|cam.mask|, |z|) - t;
    var dy := Cols(z) - Min(Cols(cam.mask), Cols(z)) - u;
    OverlapLinear(cam.mask, z, k, s1, s2, dx, dy);
    TimesCombination(k, Overlap(cam.mask, s1, dx, dy), Overlap(cam.mask, s2, dx, dy), cam.bulk[t][u]);
  }

  /**
   * `sky_encoding` is linear in the sky: at every detector cell,
   * `encode(k*s1 + s2) == k*encode(s1) + encode(s2)`, and the combination is
   * encodable whenever `s1` is.
   */
  lemma EncodingLinear(cam: Camera, k: real, s1: Matrix, s2: Matrix, z: Matrix, t: nat, u: nat)
    requires Encodable(s1, cam) && IsCombination(z, k, s1, s2)
    requires t < |cam.bulk| && u < Cols(cam.bulk)
    ensures SkyEncoding(z, cam).Some? && SkyEncoding(s2, cam).Some?
    ensures SkyEncoding(z, cam).value[t][u] == k * SkyEncoding(s1, cam).value[t][u] + SkyEncoding(s2, cam).value[t][u]
  {
    assert |s1| == |s2| == |z| && Cols(s1) == Cols(s2) == Cols(z);
    EncodedCellLinear(cam, k, s1, s2, z, t, u);
  }

  /** Encoding an all-zero sky gives an all-zero detector. */
  lemma EncodingOfZeros(sky: Matrix, cam: Camera)
    requires SkyEncoding(sky, cam).Some?
    requires forall i, j :: 0 <= i < |sky| && 0 <= j < |sky[i]| ==> sky[i][j] == 0.0
    ensures forall t, u :: 0 <= t < |cam.bulk| && 0 <= u < Cols(cam.bulk) ==>
              SkyEncoding(sky, cam).value[t][u] == 0.0
  {
    forall t, u | 0 <= t < |cam.bulk| && 0 <= u < Cols(cam.bulk)
      ensures SkyEncoding(sky, cam).value[t][u] == 0.0
    {
      OverlapZero(cam.mask, sky, |sky| - Min(|cam.mask|, |sky|) - t, Cols(sky) - Min(Cols(cam.mask), Cols(sky)) - u);
    }
  }

  /** A cell of the encoding of `k * s` is `k` times that cell of the encoding of `s`. */
  lemma EncodedCellScale(cam: Camera, k: real, s: Matrix, t: nat, u: nat)
    requires IsGrid(s, |s|, Cols(s)) && t < |cam.bulk| && u < |cam.bulk[t]|
    ensures EncodedCell(Scale(k, s), cam, t, u) == k * EncodedCell(s, cam, t, u)
  {
    var z := Scale(k, s);
    assert |z| == |s| && Cols(z) == Cols(s);
    assert IsMultiple(z, k, s);
    var dx := |s| - Min(|cam.mask|, |s|) - t;
    var dy := Cols(s) - Min(Cols(cam.mask), Cols(s)) - u;
    OverlapScale(cam.mask, z, k, s, dx, dy);
    TimesMultiple(k, Overlap(cam.mask, s, dx, dy), cam.bulk[t][u]);
  }

  lemma TimesMultiple(k: real, p: real, b: real)
    ensures (k * p) * b == k * (p * b)
  {
  }

  /** Encoding the transmitted sky scales every detector cell by the open fraction. */
  lemma EncodingTransmitted(sky: Matrix, cam: Camera, t: nat, u: nat)
    requires Encodable(sky, cam) && t < |cam.bulk| && u < Cols(cam.bulk)
    ensures SkyEncoding(TransmittedSkyImage(sky, cam), cam).Some?
    ensures SkyEncoding(TransmittedSkyImage(sky, cam), cam).value[t][u] == cam.openFraction * SkyEncoding(sky, cam).value[t][u]
  {
    var z := TransmittedSkyImage(sky, cam);
    assert |z| == |sky| && Cols(z) == Cols(sky);
    EncodedCellScale(cam, cam.openFraction, sky, t, u);
  }

  // ---- balanced deconvolution ----

  /** The reconstructed sky and its variance map (`np.inf` where a variance is not positive). */
  datatype Reconstruction = Reconstruction(sky: Matrix, variance: seq<seq<Ext>>)

  /** The DC offset `balancing * sum(detector) / sum(bulk)` removed from the raw correlation. */
  function Offset(detector: Matrix, cam: Camera): real
    requires Sum(cam.bulk) != 0.0
  {
    cam.balancing * Sum(detector) / Sum(cam.bulk)
  }

  /**
   * The balanced variance before the replacement of non-positive entries:
   * raw variance `+ balancing^2 * D / B^2 - 2 * sky * balancing / B`, where
   * `sky` is the raw, unbalanced correlation, written with `q = balancing / B`.
   */
  function BalancedVariance(rawVar: real, rawSky: real, detector: Matrix, cam: Camera): real
    requires Sum(cam.bulk) != 0.0
  {
    var q := cam.balancing / Sum(cam.bulk);
    rawVar + q * q * Sum(detector) - 2.0 * rawSky * q
  }

  /** `bal_var[bal_var <= 0] = np.inf` on one cell. */
  function ReplaceNonPositive(v: real): (e: Ext)
    ensures PositiveOrInf(e)
    ensures e.Inf? <==> v <= 0.0
    ensures e.Fin? ==> e.v == v
  {
    if v <= 0.0 then Inf else Fin(v)
  }

  /**
   * `sky_reconstruction`: full-mode correlation of the decoder with the
   * detector, shifted by the balancing offset; the variance is the
   * correlation of the squared decoder, corrected with the raw correlation, and
   * +infinity wherever that is not positive. None for an empty or ragged detector.
   */
  function SkyReconstruction(detector: Matrix, cam: Camera): (r: Option<Reconstruction>)
    requires ValidCamera(cam)
    ensures r.Some? <==> NonEmpty(detector)
    ensures r.Some? ==>
              IsGrid(r.value.sky, |cam.decoder| + |detector| - 1, Cols(cam.decoder) + Cols(detector) - 1) &&
              IsGrid(r.value.variance, |r.value.sky|, Cols(r.value.sky))
    ensures r.Some? ==> forall k, l :: 0 <= k < |r.value.sky| && 0 <= l < Cols(r.value.sky) ==>
              r.value.sky[k][l] == FullCell(cam.decoder, detector, k, l) - Offset(detector, cam)
    ensures r.Some? ==> forall k, l :: 0 <= k < |r.value.sky| && 0 <= l < Cols(r.value.sky) ==>
              PositiveOrInf(r.value.variance[k][l])
    ensures r.Some? ==> forall k, l :: 0 <= k < |r.value.sky| && 0 <= l < Cols(r.value.sky) ==>
              r.value.variance[k][l] == ReplaceNonPositive(BalancedVariance(
                FullCell(Square(cam.decoder), detector, k, l), FullCell(cam.decoder, detector, k, l), detector, cam))
  {
    if !NonEmpty(detector) then None
    else
      var rows, cols := |cam.decoder| + |detector| - 1, Cols(cam.decoder) + Cols(detector) - 1;
      var offset := Offset(detector, cam);
      var sq := Square(cam.decoder);
      var balSky := seq(rows, k => seq(cols, l => FullCell(cam.decoder, detector, k, l) - offset));
      var balVar := seq(rows, k => seq(cols, l =>
                      ReplaceNonPositive(BalancedVariance(FullCell(sq, detector, k, l), FullCell(cam.decoder, detector, k, l),
                                                          detector, cam))));
      Some(Reconstruction(balSky, balVar))
  }

  /**
   * The reconstruction is the balanced full-mode correlation of the source:
   * `correlate(decoder, detector) - balancing*sum(detector)/sum(bulk)`, and the
   * variance is built from `correlate(square(decoder), detector)` and the same
   * raw correlation.
   */
  lemma ReconstructionIsBalancedCorrelation(detector: Matrix, cam: Camera, k: nat, l: nat)
    requires ValidCamera(cam) && NonEmpty(detector)
    requires k < |cam.decoder| + |detector| - 1 && l < Cols(cam.decoder) + Cols(detector) - 1
    ensures NonEmpty(Square(cam.decoder))
    ensures SkyReconstruction(detector, cam).value.sky[k][l] ==
              FullCorrelate(cam.decoder, detector)[k][l] - Offset(detector, cam)
    ensures SkyReconstruction(detector, cam).value.variance[k][l] ==
              ReplaceNonPositive(BalancedVariance(FullCorrelate(Square(cam.decoder), detector)[k][l],
                                                  FullCorrelate(cam.decoder, detector)[k][l], detector, cam))
  {
    ValidCameraNonEmpty(cam);
  }

  /** A detector of the camera's detector shape reconstructs to two maps of the sky shape. */
  lemma ReconstructionShape(detector: Matrix, cam: Camera)
    requires ValidCamera(cam) && HasShape(detector, cam.detectorShape)
    ensures SkyReconstruction(detector, cam).Some?
    ensures HasShape(SkyReconstruction(detector, cam).value.sky, cam.skyShape)
    ensures HasShape(SkyReconstruction(detector, cam).value.variance, cam.skyShape)
  {
    ValidCameraNonEmpty(cam);
  }

  /** Every cell of the balanced sky lies the same constant below the raw correlation. */
  lemma BalancedSkyOffset(detector: Matrix, cam: Camera, k1: nat, l1: nat, k2: nat, l2: nat)
    requires ValidCamera(cam) && NonEmpty(detector)
    requires k1 < |cam.decoder| + |detector| - 1 && l1 < Cols(cam.decoder) + Cols(detector) - 1
    requires k2 < |cam.decoder| + |detector| - 1 && l2 < Cols(cam.decoder) + Cols(detector) - 1
    ensures FullCell(cam.decoder, detector, k1, l1) - SkyReconstruction(detector, cam).value.sky[k1][l1] ==
            FullCell(cam.decoder, detector, k2, l2) - SkyReconstruction(detector, cam).value.sky[k2][l2]
  {
    ValidCameraNonEmpty(cam);
  }

  lemma OffsetLinear(k: real, s: real, s1: real, s2: real, c: real, b: real)
    requires b != 0.0 && s == k * s1 + s2
    ensures c * s / b == k * (c * s1 / b) + c * s2 / b
  {
    assert c * s == k * (c * s1) + c * s2;
  }

  lemma DifferenceLinear(k: real, a: real, a1: real, a2: real, o: real, o1: real, o2: real)
    requires a == k * a1 + a2 && o == k * o1 + o2
    ensures a - o == k * (a1 - o1) + (a2 - o2)
  {
  }

  /** The balancing offset is linear in the detector image. */
  lemma OffsetOfCombination(cam: Camera, k: real, d1: Matrix, d2: Matrix, z: Matrix)
    requires ValidCamera(cam) && IsCombination(z, k, d1, d2)
    ensures Offset(z, cam) == k * Offset(d1, cam) + Offset(d2, cam)
  {
    SumLinear(k, d1, d2, z);
    OffsetLinear(k, Sum(z), Sum(d1), Sum(d2), cam.balancing, Sum(cam.bulk));
  }

  /** One cell of the balanced sky is linear in the detector image. */
  lemma BalancedCellLinear(cam: Camera, k: real, d1: Matrix, d2: Matrix, z: Matrix, a: nat, b: nat)
    requires ValidCamera(cam) && IsCombination(z, k, d1, d2)
    ensures FullCell(cam.decoder, z, a, b) - Offset(z, cam) ==
              k * (FullCell(cam.decoder, d1, a, b) - Offset(d1, cam)) + (FullCell(cam.decoder, d2, a, b) - Offset(d2, cam))
  {
    assert |z| == |d1| == |d2| && Cols(z) == Cols(d1) == Cols(d2);
    var dx, dy := |z| - 1 - a, Cols(z) - 1 - b;
    assert FullCell(cam.decoder, d1, a, b) == Overlap(cam.decoder, d1, dx, dy);
    assert FullCell(cam.decoder, d2, a, b) == Overlap(cam.decoder, d2, dx, dy);
    OverlapLinear(cam.decoder, z, k, d1, d2, dx, dy);
    OffsetOfCombination(cam, k, d1, d2, z);
    DifferenceLinear(k, FullCell(cam.decoder, z, a, b), FullCell(cam.decoder, d1, a, b), FullCell(cam.decoder, d2, a, b),
                     Offset(z, cam), Offset(d1, cam), Offset(d2, cam));
  }

  /**
   * The balanced sky is linear in the detector image: at every sky cell,
   * reconstructing `k*d1 + d2` gives `k` times the reconstruction of `d1`
   * plus that of `d2`.
   */
  lemma BalancedSkyLinear(cam: Camera, k: real, d1: Matrix, d2: Matrix, z: Matrix, a: nat, b: nat)
    requires ValidCamera(cam) && NonEmpty(d1) && IsCombination(z, k, d1, d2)
    requires a < |cam.decoder| + |d1| - 1 && b < Cols(cam.decoder) + Cols(d1) - 1
    ensures SkyReconstruction(z, cam).Some? && SkyReconstruction(d1, cam).Some? && SkyReconstruction(d2, cam).Some?
    ensures SkyReconstruction(z, cam).value.sky[a][b] ==
              k * SkyReconstruction(d1, cam).value.sky[a][b] + SkyReconstruction(d2, cam).value.sky[a][b]
  {
    ValidCameraNonEmpty(cam);
    assert |z| == |d1| == |d2| && Cols(z) == Cols(d1) == Cols(d2);
    BalancedCellLinear(cam, k, d1, d2, z, a, b);
  }

  lemma ZeroVariance(cam: Camera, detector: Matrix)
    requires ValidCamera(cam) && Sum(detector) == 0.0
    ensures Offset(detector, cam) == 0.0
    ensures BalancedVariance(0.0, 0.0, detector, cam) == 0.0
  {
  }

  /** An empty (all-zero) detector reconstructs to an all-zero sky with infinite variance everywhere. */
  lemma ReconstructionOfZeros(detector: Matrix, cam: Camera, k: nat, l: nat)
    requires ValidCamera(cam) && NonEmpty(detector)
    requires forall i, j :: 0 <= i < |detector| && 0 <= j < |detector[i]| ==> detector[i][j] == 0.0
    requires k < |cam.decoder| + |detector| - 1 && l < Cols(cam.decoder) + Cols(detector) - 1
    ensures SkyReconstruction(detector, cam).value.sky[k][l] == 0.0
    ensures SkyReconstruction(detector, cam).value.variance[k][l] == Inf
  {
    ValidCameraNonEmpty(cam);
    SumOfZeros(detector);
    ZeroVariance(cam, detector);
    var dx, dy := |detector| - 1 - k, Cols(detector) - 1 - l;
    OverlapZero(cam.decoder, detector, dx, dy);
    OverlapZero(Square(cam.decoder), detector, dx, dy);
  }

  // ---- normalisation ----

  /** `norm = 1 / (aperture * det_eff_response)`, with aperture `mask.sum()` and response `bulk.sum() / mask.size`. */
  function Norm(cam: Camera): (n: real)
    requires ValidCamera(cam)
    ensures n != 0.0
  {
    var size := (cam.maskShape.rows * cam.maskShape.cols) as real;
    assert size > 0.0 by { assert cam.maskShape.rows * cam.maskShape.cols >= 1; }
    assert Sum(cam.bulk) / size != 0.0;
    1.0 / (Sum(cam.mask) * (Sum(cam.bulk) / size))
  }

  /** The normalisation factor is `mask.size / (mask.sum() * bulk.sum())`, positive when the bulk sum is. */
  lemma NormValue(cam: Camera)
    requires ValidCamera(cam)
    ensures Norm(cam) == (cam.maskShape.rows * cam.maskShape.cols) as real / (Sum(cam.mask) * Sum(cam.bulk))
    ensures Norm(cam) != 0.0
    ensures Norm(cam) > 0.0 <==> Sum(cam.bulk) > 0.0
  {
    var size := (cam.maskShape.rows * cam.maskShape.cols) as real;
    assert size > 0.0 by { assert cam.maskShape.rows * cam.maskShape.cols >= 1; }
    var a, b := Sum(cam.mask), Sum(cam.bulk);
    assert a * (b / size) == (a * b) / size;
    assert 1.0 / ((a * b) / size) == size / (a * b);
    assert a * b > 0.0 <==> b > 0.0;
  }

  /** The sky scaled by `n`, the variance by `n^2`. */
  function Normalised(rec: Reconstruction, n: real): (r: Reconstruction)
    requires n != 0.0
    requires IsGrid(rec.sky, |rec.sky|, Cols(rec.sky)) && IsGrid(rec.variance, |rec.sky|, Cols(rec.sky))
    ensures IsGrid(r.sky, |rec.sky|, Cols(rec.sky)) && IsGrid(r.variance, |rec.sky|, Cols(rec.sky))
    ensures forall k, l :: 0 <= k < |rec.sky| && 0 <= l < Cols(rec.sky) ==> r.sky[k][l] == n * rec.sky[k][l]
    ensures forall k, l :: 0 <= k < |rec.sky| && 0 <= l < Cols(rec.sky) ==>
              r.variance[k][l] == ScaleBySquare(n, rec.variance[k][l])
  {
    Reconstruction(Scale(n, rec.sky), ScaleVariance(n, rec.variance))
  }

  /** `np.square(n) * var`, cell by cell. */
  function ScaleVariance(n: real, v: seq<seq<Ext>>): (z: seq<seq<Ext>>)
    requires n != 0.0
    ensures |z| == |v| && forall i :: 0 <= i < |v| ==> |z[i]| == |v[i]|
    ensures forall i, j :: 0 <= i < |v| && 0 <= j < |v[i]| ==> z[i][j] == ScaleBySquare(n, v[i][j])
  {
    seq(|v|, i requires 0 <= i < |v| => seq(|v[i]|, j requires 0 <= j < |v[i]| => ScaleBySquare(n, v[i][j])))
  }

  /**
   * `skyrec_norm`: the sky scaled by the norm, the variance by its square;
   * both maps keep their shape.
   */
  function SkyrecNorm(rec: Reconstruction, cam: Camera): (r: Reconstruction)
    requires ValidCamera(cam)
    requires IsGrid(rec.sky, |rec.sky|, Cols(rec.sky)) && IsGrid(rec.variance, |rec.sky|, Cols(rec.sky))
    ensures IsGrid(r.sky, |rec.sky|, Cols(rec.sky)) && IsGrid(r.variance, |rec.sky|, Cols(rec.sky))
    ensures forall k, l :: 0 <= k < |rec.sky| && 0 <= l < Cols(rec.sky) ==> r.sky[k][l] == Norm(cam) * rec.sky[k][l]
    ensures forall k, l :: 0 <= k < |rec.sky| && 0 <= l < Cols(rec.sky) ==>
              r.variance[k][l] == ScaleBySquare(Norm(cam), rec.variance[k][l])
  {
    Normalised(rec, Norm(cam))
  }

  /** Normalisation keeps every variance positive or infinite. */
  lemma NormKeepsVariancePositive(rec: Reconstruction, cam: Camera, k: nat, l: nat)
    requires ValidCamera(cam)
    requires IsGrid(rec.sky, |rec.sky|, Cols(rec.sky)) && IsGrid(rec.variance, |rec.sky|, Cols(rec.sky))
    requires k < |rec.sky| && l < Cols(rec.sky) && PositiveOrInf(rec.variance[k][l])
    ensures PositiveOrInf(SkyrecNorm(rec, cam).variance[k][l])
  {
  }

  // ---- signal to noise ----

  /**
   * One cell of `np.nan_to_num(sky / np.sqrt(var))`: 0 for an infinite
   * variance and for the NaN of a negative one; the quotient for a positive
   * one; for a zero variance the division gives +-infinity, written as
   * +-largest double, or NaN (written 0) when the sky is 0 too.
   */
  function SnrCell(s: real, e: Ext): (r: Snr)
    ensures WellFormed(r)
    ensures e.Inf? ==> r == Exact(0.0)
    ensures e.Fin? && e.v < 0.0 ==> r == Exact(0.0)
    ensures e.Fin? && e.v > 0.0 ==> r == Quot(s, e.v)
  {
    match e
    case Inf => Exact(0.0)
    case Fin(v) =>
      if v > 0.0 then Quot(s, v)
      else if v < 0.0 then Exact(0.0)
      else if s > 0.0 then Exact(LargestFinite)
      else if s < 0.0 then Exact(-LargestFinite)
      else Exact(0.0)
  }

  /** For a positive variance the cell compares with a threshold exactly as `sky / sqrt(var)` does. */
  lemma SnrCellQuotient(s: real, v: real, y: real, t: real)
    requires v > 0.0 && y > 0.0 && y * y == v
    ensures Exceeds(SnrCell(s, Fin(v)), t) <==> s / y > t
  {
    ExceedsQuotient(s, v, y, t);
  }

  /** `sky_snr` over two maps of the same shape. */
  function SkySnr(sky: Matrix, variance: seq<seq<Ext>>): (r: seq<seq<Snr>>)
    requires IsGrid(sky, |sky|, Cols(sky)) && IsGrid(variance, |sky|, Cols(sky))
    ensures IsGrid(r, |sky|, Cols(sky))
    ensures forall k, l :: 0 <= k < |sky| && 0 <= l < Cols(sky) ==> r[k][l] == SnrCell(sky[k][l], variance[k][l])
  {
    seq(|sky|, k requires 0 <= k < |sky| => seq(Cols(sky), l requires 0 <= l < Cols(sky) =>
      SnrCell(sky[k][l], variance[k][l])))
  }

  /** The SNR map of a reconstruction, whose maps have the same shape. */
  function ReconstructionSnr(rec: Reconstruction): seq<seq<Snr>>
    requires IsGrid(rec.sky, |rec.sky|, Cols(rec.sky)) && IsGrid(rec.variance, |rec.sky|, Cols(rec.sky))
  {
    SkySnr(rec.sky, rec.variance)
  }

  /** The SNR of a reconstructed cell is 0 where its variance is infinite, a well-formed quotient elsewhere. */
  lemma ReconstructionSnrCells(detector: Matrix, cam: Camera)
    requires ValidCamera(cam) && NonEmpty(detector)
    ensures forall k, l :: 0 <= k < |SkyReconstruction(detector, cam).value.sky| &&
                           0 <= l < Cols(SkyReconstruction(detector, cam).value.sky) ==>
              var rec := SkyReconstruction(detector, cam).value;
              var s := ReconstructionSnr(rec)[k][l];
              WellFormed(s) &&
              (rec.variance[k][l].Inf? ==> s == Exact(0.0)) &&
              (rec.variance[k][l].Fin? ==> s == Quot(rec.sky[k][l], rec.variance[k][l].v))
  {
  }

  lemma ScaledQuotient(c: real, s: real, v: real)
    requires c > 0.0 && v > 0.0
    ensures SameSnr(Quot(c * s, c * c * v), Quot(s, v))
  {
    assert (c * s) * (c * s) * v == s * s * (c * c * v);
    if s > 0.0 {
      assert c * s > 0.0;
    } else if s < 0.0 {
      assert c * s < 0.0;
    } else {
      assert c * s == 0.0;
    }
  }

  /** Scaling the sky by `c > 0` and the variance by `c^2` yields the same SNR value in a cell. */
  lemma SnrCellScale(c: real, s: real, e: Ext)
    requires c > 0.0
    ensures SameSnr(SnrCell(c * s, ScaleBySquare(c, e)), SnrCell(s, e))
  {
    if e.Fin? {
      var v := e.v;
      assert c * c * v == c * (c * v);
      if v > 0.0 {
        PositiveProduct(c, v);
        PositiveProduct(c, c * v);
        ScaledQuotient(c, s, v);
      } else if v < 0.0 {
        NegativeProduct(c, v);
        NegativeProduct(c, c * v);
      } else {
        assert c * v == 0.0;
        if s > 0.0 {
          PositiveProduct(c, s);
        } else if s < 0.0 {
          NegativeProduct(c, s);
        } else {
          assert c * s == 0.0;
        }
      }
    }
  }

  /** Scaling the sky by `c > 0` and the variance by `c^2` keeps every threshold comparison of a cell. */
  lemma SnrCellAgrees(c: real, s: real, e: Ext, t: real)
    requires c > 0.0
    ensures Exceeds(SnrCell(c * s, ScaleBySquare(c, e)), t) <==> Exceeds(SnrCell(s, e), t)
  {
    SnrCellScale(c, s, e);
    SameSnrAgrees(SnrCell(c * s, ScaleBySquare(c, e)), SnrCell(s, e), t);
  }

  /**
   * Scaling by `c > 0` does not change the signal-to-noise map: every cell
   * denotes the same value, so every threshold comparison agrees.
   */
  lemma SnrUnchangedByScaling(rec: Reconstruction, c: real, t: real, k: nat, l: nat)
    requires c > 0.0
    requires IsGrid(rec.sky, |rec.sky|, Cols(rec.sky)) && IsGrid(rec.variance, |rec.sky|, Cols(rec.sky))
    requires k < |rec.sky| && l < Cols(rec.sky)
    ensures SameSnr(ReconstructionSnr(Normalised(rec, c))[k][l], ReconstructionSnr(rec)[k][l])
    ensures Exceeds(ReconstructionSnr(Normalised(rec, c))[k][l], t) <==> Exceeds(ReconstructionSnr(rec)[k][l], t)
  {
    var nr := Normalised(rec, c);
    var s, e := rec.sky[k][l], rec.variance[k][l];
    assert |nr.sky| == |rec.sky| && Cols(nr.sky) == Cols(rec.sky);
    assert nr.sky[k][l] == c * s && nr.variance[k][l] == ScaleBySquare(c, e);
    var a, b := ReconstructionSnr(nr)[k][l], ReconstructionSnr(rec)[k][l];
    assert a == SnrCell(c * s, ScaleBySquare(c, e));
    assert b == SnrCell(s, e);
    SnrCellScale(c, s, e);
    SameSnrAgrees(a, b, t);
  }

  /**
   * `skyrec_norm` does not change the signal-to-noise map when the bulk sum,
   * and so the norm, is positive. This is why the SNR may be taken before or
   * after normalising.
   */
  lemma SnrUnchangedByNorm(rec: Reconstruction, cam: Camera, t: real, k: nat, l: nat)
    requires ValidCamera(cam) && Sum(cam.bulk) > 0.0
    requires IsGrid(rec.sky, |rec.sky|, Cols(rec.sky)) && IsGrid(rec.variance, |rec.sky|, Cols(rec.sky))
    requires k < |rec.sky| && l < Cols(rec.sky)
    ensures SameSnr(ReconstructionSnr(SkyrecNorm(rec, cam))[k][l], ReconstructionSnr(rec)[k][l])
    ensures Exceeds(ReconstructionSnr(SkyrecNorm(rec, cam))[k][l], t) <==> Exceeds(ReconstructionSnr(rec)[k][l], t)
  {
    NormValue(cam);
    SnrUnchangedByScaling(rec, Norm(cam), t, k, l);
  }

  /** The SNR map of an all-zero detector is 0 everywhere. */
  lemma SnrOfZeros(detector: Matrix, cam: Camera, k: nat, l: nat)
    requires ValidCamera(cam) && NonEmpty(detector)
    requires forall i, j :: 0 <= i < |detector| && 0 <= j < |detector[i]| ==> detector[i][j] == 0.0
    requires k < |cam.decoder| + |detector| - 1 && l < Cols(cam.decoder) + Cols(detector) - 1
    ensures ReconstructionSnr(SkyReconstruction(detector, cam).value)[k][l] == Exact(0.0)
  {
    ValidCameraNonEmpty(cam);
    ReconstructionOfZeros(detector, cam, k, l);
  }
}
