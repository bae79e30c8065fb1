/**
 * The shadowgram of a source: the detector image a point source of given
 * counts casts through the mask, corrected by the calibration ratio of its
 * sky position (`get_shadowgram` and `_source_calibration2`).
 */
module Shadowgrams {
  import opened Grids
  import opened Cameras
  import opened SkyRec

  /** The flux of the calibration point sources, `f = 1e4`. */
  const CalibrationFlux: real := 10000.0

  /** The central sky pixel `((n - 1) // 2, (m - 1) // 2)`. */
  function Centre(s: Shape): (p: Pos)
    requires s.rows >= 1 && s.cols >= 1
    ensures InBounds(p, s)
  {
    ((s.rows - 1) / 2, (s.cols - 1) / 2)
  }

  /** The total detector counts of a calibration point source at `p`: `d_on` or `d_off`. */
  function PointResponse(cam: Camera, p: Pos): real
    requires ValidCamera(cam) && InBounds(p, cam.skyShape)
  {
    EncodingDefined(PointSource(cam.skyShape, p, CalibrationFlux), cam);
    Sum(SkyEncoding(PointSource(cam.skyShape, p, CalibrationFlux), cam).value)
  }

  /** `PointResponse` at the sky cell `(i, j)`. */
  function ResponseAt(cam: Camera, i: nat, j: nat): real
    requires ValidCamera(cam) && i < cam.skyShape.rows && j < cam.skyShape.cols
  {
    PointResponse(cam, (i, j))
  }

  /** `d_on`: the total detector counts of a calibration point source at the centre. */
  function CentreResponse(cam: Camera): real
    requires ValidCamera(cam)
  {
    ResponseAt(cam, (cam.skyShape.rows - 1) / 2, (cam.skyShape.cols - 1) / 2)
  }

  /**
   * `_source_calibration2`: `d_off / d_on`, the counts from `pos` relative to
   * those from the centre. It is `None` when either count is 0, where the
   * quotient is not a non-zero real number.
   */
  function SourceCalibration(cam: Camera, pos: Pos): (c: Option<real>)
    requires ValidCamera(cam) && InBounds(pos, cam.skyShape)
    ensures c.Some? <==> ResponseAt(cam, pos.0, pos.1) != 0.0 && CentreResponse(cam) != 0.0
    ensures c.Some? ==> c.value != 0.0 && c.value == ResponseAt(cam, pos.0, pos.1) / CentreResponse(cam)
  {
    var dOff, dOn := ResponseAt(cam, pos.0, pos.1), CentreResponse(cam);
    if dOff == 0.0 || dOn == 0.0 then None
    else
      DivideNonZero(dOff, dOn);
      Some(dOff / dOn)
  }

  lemma DivideNonZero(x: real, y: real)
    requires x != 0.0 && y != 0.0
    ensures x / y != 0.0
  {
  }

  /** The detector image of a point source of `counts` at `pos`, every cell divided by `c`. */
  function Shadowgram(pos: Pos, counts: real, cam: Camera, c: real): (r: Matrix)
    requires ValidCamera(cam) && InBounds(pos, cam.skyShape) && c != 0.0
    ensures HasShape(r, cam.detectorShape)
  {
    var s := PointSource(cam.skyShape, pos, counts);
    seq(cam.detectorShape.rows, t requires 0 <= t < cam.detectorShape.rows =>
      seq(cam.detectorShape.cols, u requires 0 <= u < cam.detectorShape.cols => EncodedCell(s, cam, t, u) / c))
  }

  /** `sky_encoding` of the point source, divided by `c`. */
  lemma ShadowgramIsDividedEncoding(pos: Pos, counts: real, cam: Camera, c: real)
    requires ValidCamera(cam) && InBounds(pos, cam.skyShape) && c != 0.0
    ensures SkyEncoding(PointSource(cam.skyShape, pos, counts), cam).Some?
    ensures Shadowgram(pos, counts, cam, c) == DivideCells(SkyEncoding(PointSource(cam.skyShape, pos, counts), cam).value, c)
  {
    var s := PointSource(cam.skyShape, pos, counts);
    EncodingDefined(s, cam);
    var g, d := Shadowgram(pos, counts, cam, c), DivideCells(SkyEncoding(s, cam).value, c);
    forall t | 0 <= t < |g| ensures g[t] == d[t] {
      assert |g[t]| == |d[t]|;
    }
  }

  /**
   * `get_shadowgram`: the detector image of a point source of `counts` at
   * `pos`, divided by the calibration ratio of `pos`; `None` exactly when
   * that ratio is.
   */
  function GetShadowgram(pos: Pos, counts: real, cam: Camera): (r: Option<Matrix>)
    requires ValidCamera(cam) && InBounds(pos, cam.skyShape)
    ensures r.Some? <==> SourceCalibration(cam, pos).Some?
    ensures SkyEncoding(PointSource(cam.skyShape, pos, counts), cam).Some?
    ensures r.Some? ==> HasShape(r.value, cam.detectorShape)
    ensures r.Some? ==> r.value == DivideCells(SkyEncoding(PointSource(cam.skyShape, pos, counts), cam).value, SourceCalibration(cam, pos).value)
  {
    EncodingDefined(PointSource(cam.skyShape, pos, counts), cam);
    var c := SourceCalibration(cam, pos);
    if c.None? then None
    else
      ShadowgramIsDividedEncoding(pos, counts, cam, c.value);
      Some(Shadowgram(pos, counts, cam, c.value))
  }

  /** The calibration ratio of the central pixel is 1 whenever the centre's counts are not 0. */
  lemma CentreCalibration(cam: Camera)
    requires ValidCamera(cam)
    requires CentreResponse(cam) != 0.0
    ensures SourceCalibration(cam, Centre(cam.skyShape)) == Some(1.0)
  {
    var c := Centre(cam.skyShape);
    assert ResponseAt(cam, c.0, c.1) == CentreResponse(cam);
    DivideSelf(CentreResponse(cam));
  }

  lemma DivideSelf(x: real)
    requires x != 0.0
    ensures x / x == 1.0
  {
  }

  /** Dividing by 1 changes nothing. */
  lemma DivideByOne(m: Matrix)
    ensures DivideCells(m, 1.0) == m
  {
    var z := DivideCells(m, 1.0);
    forall i | 0 <= i < |m| ensures z[i] == m[i] {
      assert |z[i]| == |m[i]|;
    }
  }

  /**
   * At the centre the calibration ratio is 1, so the shadowgram is the plain
   * encoding of the point source whenever the centre's counts are not 0.
   */
  lemma ShadowgramAtCentre(counts: real, cam: Camera)
    requires ValidCamera(cam)
    requires CentreResponse(cam) != 0.0
    ensures SkyEncoding(PointSource(cam.skyShape, Centre(cam.skyShape), counts), cam).Some?
    ensures GetShadowgram(Centre(cam.skyShape), counts, cam) ==
            Some(SkyEncoding(PointSource(cam.skyShape, Centre(cam.skyShape), counts), cam).value)
  {
    var c := Centre(cam.skyShape);
    CentreCalibration(cam);
    ShadowgramIsDividedEncoding(c, counts, cam, 1.0);
    DivideByOne(SkyEncoding(PointSource(cam.skyShape, c, counts), cam).value);
  }

  lemma DivideMultiple(e1: real, e2: real, k: real, d: real)
    requires d != 0.0 && e1 == k * e2
    ensures e1 / d == k * (e2 / d)
  {
  }

  /** Cell by cell, the shadowgram is linear in the source counts. */
  lemma ShadowgramScale(pos: Pos, k: real, counts: real, cam: Camera, c: real, t: nat, u: nat)
    requires ValidCamera(cam) && InBounds(pos, cam.skyShape) && c != 0.0
    requires t < cam.detectorShape.rows && u < cam.detectorShape.cols
    ensures Shadowgram(pos, k * counts, cam, c)[t][u] == k * Shadowgram(pos, counts, cam, c)[t][u]
  {
    var s := PointSource(cam.skyShape, pos, counts);
    PointSourceScale(cam.skyShape, pos, k, counts);
    EncodedCellScale(cam, k, s, t, u);
    DivideMultiple(EncodedCell(Scale(k, s), cam, t, u), EncodedCell(s, cam, t, u), k, c);
  }

}
