/**
 * The older IROS generator: it starts from a sky map and SNR map computed by
 * the caller, selects a source on them, and when SNR peaks remain subtracts
 * the source's plain (uncalibrated) shadowgram without clamping, reconstructs
 * the sky from the residual detector image and yields the new maps.
 */
module IrosDepr {
  import opened Grids
  import opened Extended
  import opened Correlation
  import opened Cameras
  import opened SkyRec
  import opened Driver
  import Iros
  import Shadowgrams

  // ---- the sources log ----

  /** The three parallel lists of the sources log: positions, counts and SNR values. */
  datatype Log = Log(pos: seq<Pos>, counts: seq<real>, snrs: seq<Snr>)

  const EmptyLog := Log([], [], [])

  /** The three lists have the same length. */
  predicate Aligned(t: Log)
  {
    |t.pos| == |t.counts| == |t.snrs|
  }

  /** Aligned lists with no position listed twice. */
  predicate WellKept(t: Log)
  {
    Aligned(t) && Iros.Distinct(t.pos)
  }

  /** The log after `record_source(pos, counts, snr)`: every list keeps its items and gains one at its end. */
  function Record(t: Log, p: Pos, c: real, s: Snr): (r: Log)
    ensures Aligned(t) ==> Aligned(r)
    ensures |r.pos| == |t.pos| + 1 && r.pos[..|t.pos|] == t.pos && r.pos[|t.pos|] == p
    ensures |r.counts| == |t.counts| + 1 && r.counts[..|t.counts|] == t.counts && r.counts[|t.counts|] == c
    ensures |r.snrs| == |t.snrs| + 1 && r.snrs[..|t.snrs|] == t.snrs && r.snrs[|t.snrs|] == s
  {
    Log(t.pos + [p], t.counts + [c], t.snrs + [s])
  }

  /** `_check_peaks`: whether the peak count is not zero. */
  function CheckPeaks(n: int): (b: bool)
    ensures b <==> n != 0
  {
    n != 0
  }

  /** The loop goes on exactly when some cell of the SNR map exceeds the threshold. */
  lemma CheckPeaksMeansPeak(snr: seq<seq<Snr>>, t: real)
    ensures CheckPeaks(Iros.CountAbove(snr, t)) <==>
              exists r, c :: 0 <= r < |snr| && 0 <= c < |snr[r]| && Exceeds(snr[r][c], t)
  {
    Iros.NoPeaks(snr, t);
  }

  /**
   * The log after `select_source`: unchanged when there is no SNR peak or
   * the brightest position is already listed; otherwise that position
   * recorded with its counts divided by the open fraction `f`, and its SNR.
   */
  function Logged(t: Log, sky: Matrix, snr: seq<seq<Snr>>, threshold: real, f: real): (r: Log)
    requires Iros.Maps(sky, snr) && f != 0.0
    ensures var sel := Iros.SelectionOf(sky, snr, threshold);
            (sel.peaks == 0 ==> r == t) &&
            (sel.loc in t.pos ==> r == t) &&
            (sel.peaks != 0 && sel.loc !in t.pos ==>
               r == Record(t, sel.loc, sel.counts / f, snr[sel.loc.0][sel.loc.1]))
  {
    var sel := Iros.SelectionOf(sky, snr, threshold);
    if sel.peaks == 0 then t
    else if sel.loc in t.pos then t
    else Record(t, sel.loc, sel.counts / f, snr[sel.loc.0][sel.loc.1])
  }

  /**
   * Unlike the current selection, this one does not look at the SNR of the
   * brightest position: with a peak elsewhere it records a position whose
   * own SNR does not pass the threshold.
   */
  lemma RecordsBelowThreshold()
    ensures var sky, snr := [[1.0, 0.0]], [[Exact(0.0), Exact(2.0)]];
            Logged(EmptyLog, sky, snr, 1.0, 1.0) == Log([(0, 0)], [1.0], [Exact(0.0)]) &&
            !Exceeds(snr[0][0], 1.0)
  {
    var sky, snr := [[1.0, 0.0]], [[Exact(0.0), Exact(2.0)]];
    Iros.ArgWhereSpec(snr, 1.0);
    assert Iros.IsPeak(snr, 1.0, (0, 1));
    assert (0, 1) in Iros.ArgWhere(snr, 1.0);
    assert Iros.IsFirstMax(sky, (0, 0));
    var p := Iros.SelectionOf(sky, snr, 1.0).loc;
    Iros.FirstMaxUnique(sky, p, (0, 0));
  }

  /** Selection keeps the log well kept, extends it, and adds at most one source. */
  lemma LoggedKeeps(t: Log, sky: Matrix, snr: seq<seq<Snr>>, threshold: real, f: real)
    requires Iros.Maps(sky, snr) && f != 0.0 && WellKept(t)
    ensures var r := Logged(t, sky, snr, threshold, f);
            WellKept(r) && t.pos <= r.pos && |r.pos| <= |t.pos| + 1
  {
    var r := Logged(t, sky, snr, threshold, f);
    if r != t {
      var p := Iros.SelectionOf(sky, snr, threshold).loc;
      assert r.pos == t.pos + [p] && p !in t.pos;
      forall a, b | 0 <= a < b < |r.pos| ensures r.pos[a] != r.pos[b] {
        if b == |t.pos| {
          assert r.pos[a] == t.pos[a];
        }
      }
    }
  }

  /** The sources-log dict: three lists that the selection appends to in place. */
  class SourcesLog {
    var sourcesPos: seq<Pos>
    var sourcesCounts: seq<real>
    var sourcesSnrs: seq<Snr>

    function Contents(): Log
      reads this
    {
      Log(sourcesPos, sourcesCounts, sourcesSnrs)
    }

    predicate Valid()
      reads this
    {
      WellKept(Contents())
    }

    constructor ()
      ensures Valid() && Contents() == EmptyLog
    {
      sourcesPos, sourcesCounts, sourcesSnrs := [], [], [];
    }

    /** `record_source`: appends one item to each of the three lists and returns the same log. */
    method RecordSource(p: Pos, c: real, s: Snr) returns (r: SourcesLog)
      modifies this
      ensures r == this
      ensures Contents() == Record(old(Contents()), p, c, s)
    {
      sourcesPos := sourcesPos + [p];
      sourcesCounts := sourcesCounts + [c];
      sourcesSnrs := sourcesSnrs + [s];
      r := this;
    }

    /** `select_source`: selects the brightest position and records it when peaks remain and it is new. */
    method SelectSource(sky: Matrix, snr: seq<seq<Snr>>, threshold: real, f: real)
      returns (loc: Pos, counts: real, n: nat)
      requires Valid() && Iros.Maps(sky, snr) && f != 0.0
      modifies this
      ensures Iros.Selection(loc, counts, n) == Iros.SelectionOf(sky, snr, threshold)
      ensures Contents() == Logged(old(Contents()), sky, snr, threshold, f)
      ensures Valid()
    {
      LoggedKeeps(Contents(), sky, snr, threshold, f);
      n := Iros.CountAbove(snr, threshold);
      loc := Iros.Argmax(sky).value;
      counts := sky[loc.0][loc.1];
      if n == 0 {
        return;
      } else if loc in sourcesPos {
        return;
      } else {
        var same := RecordSource(loc, counts / f, snr[loc.0][loc.1]);
      }
    }
  }

  // ---- shadowgram and iteration ----

  /** The inner `shadowgram`: the encoding of a point source of `counts` at `pos`, of the detector shape. */
  function Shadowgram(pos: Pos, counts: real, cam: Camera): (r: Matrix)
    requires ValidCamera(cam) && InBounds(pos, cam.skyShape)
    ensures HasShape(r, cam.detectorShape)
  {
    EncodingDefined(PointSource(cam.skyShape, pos, counts), cam);
    SkyEncoding(PointSource(cam.skyShape, pos, counts), cam).value
  }

  /**
   * The current `get_shadowgram`, where it is defined, is this shadowgram
   * divided by the calibration ratio of the position; at the centre the two
   * agree whenever the centre's counts are not 0.
   */
  lemma ShadowgramUncalibrated(pos: Pos, counts: real, cam: Camera)
    requires ValidCamera(cam) && InBounds(pos, cam.skyShape)
    ensures Shadowgrams.GetShadowgram(pos, counts, cam).Some? ==>
              Shadowgrams.GetShadowgram(pos, counts, cam).value ==
              DivideCells(Shadowgram(pos, counts, cam), Shadowgrams.SourceCalibration(cam, pos).value)
    ensures pos == Shadowgrams.Centre(cam.skyShape) && Shadowgrams.CentreResponse(cam) != 0.0 ==>
              Shadowgrams.GetShadowgram(pos, counts, cam) == Some(Shadowgram(pos, counts, cam))
  {
    if pos == Shadowgrams.Centre(cam.skyShape) && Shadowgrams.CentreResponse(cam) != 0.0 {
      Shadowgrams.ShadowgramAtCentre(counts, cam);
    }
  }

  /** The images one iteration leaves: the residual detector, its sky reconstruction and SNR map. */
  datatype Images = Images(detector: Matrix, sky: Matrix, snr: seq<seq<Snr>>)

  /**
   * `iros_iteration`: the shadowgram subtracted from the detector with no
   * clamping, and the residual reconstructed.
   */
  function IrosIteration(detector: Matrix, shadowgram: Matrix, cam: Camera): (r: Images)
    requires ValidCamera(cam) && HasShape(detector, cam.detectorShape) && HasShape(shadowgram, cam.detectorShape)
    ensures HasShape(r.detector, cam.detectorShape) && HasShape(r.sky, cam.skyShape) && HasShape(r.snr, cam.skyShape)
    ensures Add(r.detector, shadowgram) == detector
    ensures r.sky == SkyReconstruction(r.detector, cam).value.sky
    ensures r.snr == ReconstructionSnr(SkyReconstruction(r.detector, cam).value)
  {
    var residual := Sub(detector, shadowgram);
    AddBack(detector, shadowgram, residual);
    ReconstructionShape(residual, cam);
    var rec := SkyReconstruction(residual, cam).value;
    Images(residual, rec.sky, ReconstructionSnr(rec))
  }

  /** Adding the subtracted image back restores the original one. */
  lemma AddBack(d: Matrix, g: Matrix, z: Matrix)
    requires IsGrid(d, |d|, Cols(d)) && IsGrid(g, |d|, Cols(d)) && z == Sub(d, g)
    ensures Add(z, g) == d
  {
    var w := Add(z, g);
    forall i | 0 <= i < |d| ensures w[i] == d[i] {
      assert |w[i]| == |d[i]|;
    }
  }

  /**
   * Since nothing is clamped, the new sky map is the reconstruction of the
   * detector minus the reconstruction of the shadowgram, cell by cell.
   */
  lemma IterationSkyDifference(detector: Matrix, shadowgram: Matrix, cam: Camera, a: nat, b: nat)
    requires ValidCamera(cam) && HasShape(detector, cam.detectorShape) && HasShape(shadowgram, cam.detectorShape)
    requires a < cam.skyShape.rows && b < cam.skyShape.cols
    ensures SkyReconstruction(detector, cam).Some? && SkyReconstruction(shadowgram, cam).Some?
    ensures IrosIteration(detector, shadowgram, cam).sky[a][b] ==
              SkyReconstruction(detector, cam).value.sky[a][b] - SkyReconstruction(shadowgram, cam).value.sky[a][b]
  {
    var z := IrosIteration(detector, shadowgram, cam).detector;
    assert IsCombination(z, -1.0, shadowgram, detector);
    BalancedSkyLinear(cam, -1.0, shadowgram, detector, z, a, b);
  }

  // ---- the IROS loop ----

  /** What the generator yields or returns: the sources log, the sky map and the SNR map. */
  datatype Step = Step(sources: Log, sky: Matrix, snr: seq<seq<Snr>>)

  /** The state of the loop: detector image, sky map, SNR map and the sources log. */
  datatype State = State(detector: Matrix, skymap: Matrix, skysnr: seq<seq<Snr>>, sources: Log)

  /** The camera's detector shape for the detector image, its sky shape for both maps. */
  function Fits(cam: Camera): State -> bool
  {
    (s: State) => HasShape(s.detector, cam.detectorShape) && HasShape(s.skymap, cam.skyShape) &&
                  HasShape(s.skysnr, cam.skyShape)
  }

  /** A camera the older loop runs with: valid, and an open fraction it may divide by. */
  predicate Usable(cam: Camera)
  {
    ValidCamera(cam) && cam.openFraction != 0.0
  }

  /**
   * One iteration of the older `IROS`: select a source on the current maps;
   * with peaks, remove its shadowgram and yield the new maps, and without,
   * return the current ones.
   */
  function Iterate(threshold: real, cam: Camera): (f: State --> Iteration<State, Step>)
    requires Usable(cam)
    ensures Closed(f, Fits(cam))
  {
    (s: State) requires Usable(cam) && Fits(cam)(s) =>
      var sel := Iros.SelectionOf(s.skymap, s.skysnr, threshold);
      var log := Logged(s.sources, s.skymap, s.skysnr, threshold, cam.openFraction);
      if CheckPeaks(sel.peaks) then
        var im := IrosIteration(s.detector, Shadowgram(sel.loc, sel.counts, cam), cam);
        Iteration(Step(log, im.sky, im.snr), sel.peaks, Some(State(im.detector, im.sky, im.snr, log)))
      else
        Iteration(Step(log, s.skymap, s.skysnr), 0, Some(State(s.detector, s.skymap, s.skysnr, log)))
  }

  /** The older `IROS` from the given maps and detector image, run for `n` iterations. */
  function DeprRun(n: nat, skysnr: seq<seq<Snr>>, skymap: Matrix, detector: Matrix, threshold: real, cam: Camera)
    : Outcome<Step>
    requires Usable(cam) && Fits(cam)(State(detector, skymap, skysnr, EmptyLog))
  {
    Run(Iterate(threshold, cam), Fits(cam), State(detector, skymap, skysnr, EmptyLog), n)
  }

  /**
   * At most `n` yields, one positive peak count logged per yield, and an
   * early return only with iterations to spare.
   */
  lemma DeprBounded(n: nat, skysnr: seq<seq<Snr>>, skymap: Matrix, detector: Matrix, threshold: real, cam: Camera)
    requires Usable(cam) && Fits(cam)(State(detector, skymap, skysnr, EmptyLog))
    ensures var o := DeprRun(n, skysnr, skymap, detector, threshold, cam);
            |o.emitted| <= n && |o.peaks| == |o.emitted| &&
            (forall k :: 0 <= k < |o.peaks| ==> o.peaks[k] > 0) &&
            (o.stop.Some? ==> |o.emitted| < n)
  {
    RunBounded(Iterate(threshold, cam), Fits(cam), State(detector, skymap, skysnr, EmptyLog), n);
  }

  /** With no calibration division, every iteration leaves a state. */
  lemma IterateTotal(threshold: real, cam: Camera)
    requires Usable(cam)
    ensures Total(Iterate(threshold, cam), Fits(cam))
  {
    forall s | Fits(cam)(s) ensures Iterate(threshold, cam)(s).next.Some? {
      var sel := Iros.SelectionOf(s.skymap, s.skysnr, threshold);
    }
  }

  /** The older IROS run is never undefined. */
  lemma DeprDefined(n: nat, skysnr: seq<seq<Snr>>, skymap: Matrix, detector: Matrix, threshold: real, cam: Camera)
    requires Usable(cam) && Fits(cam)(State(detector, skymap, skysnr, EmptyLog))
    ensures !DeprRun(n, skysnr, skymap, detector, threshold, cam).undefined
  {
    IterateTotal(threshold, cam);
    RunDefined(Iterate(threshold, cam), Fits(cam), State(detector, skymap, skysnr, EmptyLog), n);
  }

  const KeptState: State -> bool := (s: State) => WellKept(s.sources)
  const KeptStep: Step -> bool := (y: Step) => WellKept(y.sources)

  /** Every iteration keeps the log well kept. */
  lemma IterateKeeps(threshold: real, cam: Camera)
    requires Usable(cam)
    ensures Keeps(Iterate(threshold, cam), Fits(cam), KeptState, KeptStep)
  {
    forall s | Fits(cam)(s) && KeptState(s)
      ensures KeptStep(Iterate(threshold, cam)(s).out) && KeptState(Iterate(threshold, cam)(s).next.value)
    {
      LoggedKeeps(s.sources, s.skymap, s.skysnr, threshold, cam.openFraction);
    }
  }

  /** Every log the older IROS yields or returns has aligned lists and no position twice. */
  lemma DeprDistinct(n: nat, skysnr: seq<seq<Snr>>, skymap: Matrix, detector: Matrix, threshold: real, cam: Camera)
    requires Usable(cam) && Fits(cam)(State(detector, skymap, skysnr, EmptyLog))
    ensures Everywhere(DeprRun(n, skysnr, skymap, detector, threshold, cam), KeptStep)
  {
    IterateKeeps(threshold, cam);
    RunKeeps(Iterate(threshold, cam), Fits(cam), KeptState, KeptStep, State(detector, skymap, skysnr, EmptyLog), n);
  }

  /** A step whose SNR map has no cell over `threshold`. */
  function Clean(threshold: real): Step -> bool
  {
    (y: Step) => Iros.CountAbove(y.snr, threshold) == 0
  }

  /** An iteration without peaks returns maps with no SNR peak. */
  lemma IterateStopsClean(threshold: real, cam: Camera)
    requires Usable(cam)
    ensures StopsWith(Iterate(threshold, cam), Fits(cam), Clean(threshold))
  {
    forall s | Fits(cam)(s) && Iterate(threshold, cam)(s).peaks == 0
      ensures Clean(threshold)(Iterate(threshold, cam)(s).out)
    {
      var sel := Iros.SelectionOf(s.skymap, s.skysnr, threshold);
    }
  }

  /** When the older IROS returns early, no cell of the SNR map it returns exceeds the threshold. */
  lemma DeprStopsClean(n: nat, skysnr: seq<seq<Snr>>, skymap: Matrix, detector: Matrix, threshold: real, cam: Camera)
    requires Usable(cam) && Fits(cam)(State(detector, skymap, skysnr, EmptyLog))
    ensures var o := DeprRun(n, skysnr, skymap, detector, threshold, cam);
            o.stop.Some? ==> forall r, c :: 0 <= r < |o.stop.value.snr| && 0 <= c < |o.stop.value.snr[r]| ==>
                                             !Exceeds(o.stop.value.snr[r][c], threshold)
  {
    IterateStopsClean(threshold, cam);
    RunStops(Iterate(threshold, cam), Fits(cam), Clean(threshold), State(detector, skymap, skysnr, EmptyLog), n);
    var o := DeprRun(n, skysnr, skymap, detector, threshold, cam);
    if o.stop.Some? {
      Iros.NoPeaks(o.stop.value.snr, threshold);
    }
  }

  /** `snr_peaks_list` after the run: the logged peak counts, then zeros up to length `n`. */
  function Padded(peaks: seq<nat>, n: nat): (r: seq<nat>)
    requires |peaks| <= n
    ensures |r| == n
    ensures forall k :: 0 <= k < |peaks| ==> r[k] == peaks[k]
    ensures forall k :: |peaks| <= k < n ==> r[k] == 0
  {
    peaks + seq(n - |peaks|, k => 0)
  }

  /** Setting entry `|peaks|` of the padded list logs one more count. */
  lemma PaddedSet(peaks: seq<nat>, n: nat, x: nat)
    requires |peaks| < n
    ensures Padded(peaks, n)[|peaks| := x] == Padded(peaks + [x], n)
  {
    var a, b := Padded(peaks, n)[|peaks| := x], Padded(peaks + [x], n);
    assert forall k :: 0 <= k < n ==> a[k] == b[k];
  }

  /** Writing 0 at entry `|peaks|` of the padded list leaves it as it is. */
  lemma PaddedSetZero(peaks: seq<nat>, n: nat)
    requires |peaks| < n
    ensures Padded(peaks, n)[|peaks| := 0] == Padded(peaks, n)
  {
    var a, b := Padded(peaks, n)[|peaks| := 0], Padded(peaks, n);
    assert forall k :: 0 <= k < n ==> a[k] == b[k];
  }

  /**
   * One pass of the older loop body: select and record, and with peaks
   * remove the shadowgram and reconstruct.
   */
  method DeprIteration(detector: Matrix, skymap: Matrix, skysnr: seq<seq<Snr>>, sourcesLog: SourcesLog,
                       threshold: real, cam: Camera)
    returns (step: Step, nPeaks: nat, next: Images)
    requires Usable(cam) && Fits(cam)(State(detector, skymap, skysnr, sourcesLog.Contents())) && sourcesLog.Valid()
    modifies sourcesLog
    ensures sourcesLog.Valid()
    ensures var it := Iterate(threshold, cam)(State(detector, skymap, skysnr, old(sourcesLog.Contents())));
            step == it.out && nPeaks == it.peaks &&
            Some(State(next.detector, next.sky, next.snr, sourcesLog.Contents())) == it.next
  {
    var loc, counts;
    loc, counts, nPeaks := sourcesLog.SelectSource(skymap, skysnr, threshold, cam.openFraction);
    if CheckPeaks(nPeaks) {
      var sourceShadowgram := Shadowgram(loc, counts, cam);
      next := IrosIteration(detector, sourceShadowgram, cam);
      step := Step(sourcesLog.Contents(), next.sky, next.snr);
    } else {
      next := Images(detector, skymap, skysnr);
      step := Step(sourcesLog.Contents(), skymap, skysnr);
    }
  }

  /**
   * The older `IROS(n_iterations, skysnr, skymap, detector_img, snr_threshold, cam)`
   * run to completion, with the peak list it keeps for display.
   */
  method IrosDeprecated(n: nat, skysnr: seq<seq<Snr>>, skymap: Matrix, detector: Matrix, threshold: real, cam: Camera)
    returns (o: Outcome<Step>, snrPeaksList: seq<nat>)
    requires Usable(cam) && Fits(cam)(State(detector, skymap, skysnr, EmptyLog))
    ensures o == DeprRun(n, skysnr, skymap, detector, threshold, cam)
    ensures |o.peaks| <= n && snrPeaksList == Padded(o.peaks, n)
  {
    ghost var iterate, inv := Iterate(threshold, cam), Fits(cam);
    ghost var whole := DeprRun(n, skysnr, skymap, detector, threshold, cam);
    var detectorImg, sky, snr := detector, skymap, skysnr;
    var sourcesLog := new SourcesLog();
    snrPeaksList := seq(n, k => 0);
    var emitted, peaksLog := [], [];
    var i := 0;
    ghost var left: nat, state := n, State(detector, skymap, skysnr, EmptyLog);
    ResumesStart(iterate, inv, state, n);
    while i < n
      invariant 0 <= i <= n && left == n - i && |peaksLog| == i
      invariant sourcesLog.Valid()
      invariant state == State(detectorImg, sky, snr, sourcesLog.Contents()) && inv(state)
      invariant Resumes(iterate, inv, emitted, peaksLog, state, left, whole)
      invariant snrPeaksList == Padded(peaksLog, n)
      decreases n - i
    {
      var step, nPeaks, next := DeprIteration(detectorImg, sky, snr, sourcesLog, threshold, cam);
      if CheckPeaks(nPeaks) {
        ghost var emitted0, peaks0, state0, left0 := emitted, peaksLog, state, left;
        PaddedSet(peaksLog, n, nPeaks);
        snrPeaksList := snrPeaksList[i := nPeaks];
        detectorImg, sky, snr := next.detector, next.sky, next.snr;
        emitted, peaksLog := emitted + [step], peaksLog + [nPeaks];
        i, left, state := i + 1, left - 1, State(next.detector, next.sky, next.snr, sourcesLog.Contents());
        ResumesStep(iterate, inv, emitted0, peaks0, state0, left0, whole, step, nPeaks, state, emitted, peaksLog, left);
      } else {
        PaddedSetZero(peaksLog, n);
        snrPeaksList := snrPeaksList[i := nPeaks];
        ResumesStop(iterate, inv, emitted, peaksLog, state, left, whole, step);
        return Outcome(emitted, peaksLog, Some(step), false), snrPeaksList;
      }
    }
    ResumesEnd(iterate, inv, emitted, peaksLog, state, left, whole);
    o := Outcome(emitted, peaksLog, None, false);
  }
}
