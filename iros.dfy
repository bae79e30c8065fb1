/**
 * Iterative Removal Of Sources (IROS): reconstruct the sky, take its
 * brightest pixel as a source candidate, record it when its signal-to-noise
 * ratio passes the threshold, subtract its shadowgram from the detector and
 * start again, until no pixel passes the threshold.
 */
module Iros {
  import opened Grids
  import opened Extended
  import opened Correlation
  import opened Cameras
  import opened SkyRec
  import opened Shadowgrams
  import opened Driver

  // ---- argmax ----

  /** Cell `(r, c)` comes strictly before `q` in row-major order. */
  predicate Before(r: int, c: int, q: Pos)
  {
    r < q.0 || (r == q.0 && c < q.1)
  }

  /** Cell `(r, c)` comes at or before `q` in row-major order. */
  predicate AtOrBefore(r: int, c: int, q: Pos)
  {
    Before(r, c, q) || (r == q.0 && c == q.1)
  }

  /**
   * The position of the first largest cell among the cells at or before
   * `(i, j)`, visited in row-major order (the order of `np.argmax` on the
   * flattened array).
   */
  function BestUpTo(m: Matrix, i: nat, j: nat): (b: Pos)
    requires NonEmpty(m) && i < |m| && j < Cols(m)
    ensures AtOrBefore(b.0, b.1, (i, j)) && b.0 < |m| && b.1 < Cols(m)
    ensures forall r, c :: 0 <= r < |m| && 0 <= c < Cols(m) && AtOrBefore(r, c, (i, j)) ==> m[r][c] <= m[b.0][b.1]
    ensures forall r, c :: 0 <= r < |m| && 0 <= c < Cols(m) && Before(r, c, b) ==> m[r][c] < m[b.0][b.1]
    decreases i, j
  {
    if i == 0 && j == 0 then (0, 0)
    else
      var b := if j > 0 then BestUpTo(m, i, j - 1) else BestUpTo(m, i - 1, Cols(m) - 1);
      if m[i][j] > m[b.0][b.1] then (i, j) else b
  }

  /** `p` is a largest cell of `m`, and every cell before it in row-major order is smaller. */
  predicate IsFirstMax(m: Matrix, p: Pos)
  {
    p.0 < |m| && p.1 < |m[p.0]| &&
    (forall r, c :: 0 <= r < |m| && 0 <= c < |m[r]| ==> m[r][c] <= m[p.0][p.1]) &&
    (forall r, c :: 0 <= r < |m| && 0 <= c < |m[r]| && Before(r, c, p) ==> m[r][c] < m[p.0][p.1])
  }

  /**
   * `argmax`: the (row, col) of the first maximum in row-major order; None
   * for an empty array, where `np.argmax` raises.
   */
  function Argmax(m: Matrix): (r: Option<Pos>)
    ensures r.Some? <==> NonEmpty(m)
    ensures r.Some? ==> IsFirstMax(m, r.value)
  {
    if !NonEmpty(m) then None else Some(BestUpTo(m, |m| - 1, Cols(m) - 1))
  }

  /** The first maximum is unique, so `Argmax` is the only position that meets its contract. */
  lemma FirstMaxUnique(m: Matrix, p: Pos, q: Pos)
    requires IsFirstMax(m, p) && IsFirstMax(m, q)
    ensures p == q
  {
    assert m[p.0][p.1] == m[q.0][q.1];
  }

  // ---- counting SNR peaks ----

  /** The positions before `(i, j)` in row-major order whose SNR exceeds `t`, in that order. */
  function ArgWhereTo(snr: seq<seq<Snr>>, t: real, i: nat, j: nat): seq<Pos>
    requires i <= |snr| && (i < |snr| ==> j <= |snr[i]|) && (i == |snr| ==> j == 0)
    decreases i, j
  {
    if j > 0 then ArgWhereTo(snr, t, i, j - 1) + (if Exceeds(snr[i][j - 1], t) then [(i, j - 1)] else [])
    else if i == 0 then []
    else ArgWhereTo(snr, t, i - 1, |snr[i - 1]|)
  }

  /** `np.argwhere(snr > t)`: the positions whose SNR exceeds `t`, in row-major order. */
  function ArgWhere(snr: seq<seq<Snr>>, t: real): seq<Pos>
  {
    ArgWhereTo(snr, t, |snr|, 0)
  }

  /** `len(np.argwhere(snr > t))`: the number of SNR peaks. */
  function CountAbove(snr: seq<seq<Snr>>, t: real): nat
  {
    |ArgWhere(snr, t)|
  }

  /** A position exceeding `t` at a cell of `snr`. */
  predicate IsPeak(snr: seq<seq<Snr>>, t: real, p: Pos)
  {
    p.0 < |snr| && p.1 < |snr[p.0]| && Exceeds(snr[p.0][p.1], t)
  }

  /** A sequence of positions in strictly increasing row-major order. */
  predicate RowMajor(w: seq<Pos>)
  {
    forall a, b :: 0 <= a < b < |w| ==> Before(w[a].0, w[a].1, w[b])
  }

  lemma {:induction false} ArgWhereToSpec(snr: seq<seq<Snr>>, t: real, i: nat, j: nat)
    requires i <= |snr| && (i < |snr| ==> j <= |snr[i]|) && (i == |snr| ==> j == 0)
    ensures forall p :: p in ArgWhereTo(snr, t, i, j) <==> IsPeak(snr, t, p) && Before(p.0, p.1, (i, j))
    ensures RowMajor(ArgWhereTo(snr, t, i, j))
    decreases i, j
  {
    if j > 0 {
      ArgWhereToSpec(snr, t, i, j - 1);
      var prev := ArgWhereTo(snr, t, i, j - 1);
      if Exceeds(snr[i][j - 1], t) {
        var w := prev + [(i, j - 1)];
        assert ArgWhereTo(snr, t, i, j) == w;
        forall a, b | 0 <= a < b < |w| ensures Before(w[a].0, w[a].1, w[b]) {
          if b == |prev| {
            assert w[a] in prev;
          }
        }
      }
    } else if i > 0 {
      ArgWhereToSpec(snr, t, i - 1, |snr[i - 1]|);
    }
  }

  /** `np.argwhere` lists exactly the peaks, each once, in row-major order. */
  lemma ArgWhereSpec(snr: seq<seq<Snr>>, t: real)
    ensures forall p :: p in ArgWhere(snr, t) <==> IsPeak(snr, t, p)
    ensures RowMajor(ArgWhere(snr, t))
  {
    ArgWhereToSpec(snr, t, |snr|, 0);
  }

  /** There are no peaks exactly when no cell exceeds the threshold. */
  lemma NoPeaks(snr: seq<seq<Snr>>, t: real)
    ensures CountAbove(snr, t) == 0 <==>
              forall r, c :: 0 <= r < |snr| && 0 <= c < |snr[r]| ==> !Exceeds(snr[r][c], t)
  {
    ArgWhereSpec(snr, t);
    if CountAbove(snr, t) == 0 {
      forall r: nat, c: nat | r < |snr| && c < |snr[r]| ensures !Exceeds(snr[r][c], t) {
        assert (r, c) !in ArgWhere(snr, t);
      }
    } else {
      assert IsPeak(snr, t, ArgWhere(snr, t)[0]);
    }
  }

  // ---- the sources dataset ----

  /**
   * The four parallel lists of the sources dataset. `stds`, named
   * `sources_stds` in the dataset, receives the variance at the source.
   */
  datatype SourcesTable = SourcesTable(pos: seq<Pos>, counts: seq<real>, stds: seq<Ext>, snrs: seq<Snr>)

  const EmptyTable := SourcesTable([], [], [], [])

  /** The four lists have the same length. */
  predicate Aligned(t: SourcesTable)
  {
    |t.pos| == |t.counts| == |t.stds| == |t.snrs|
  }

  /** No position is listed twice. */
  predicate Distinct(s: seq<Pos>)
  {
    forall a, b :: 0 <= a < b < |s| ==> s[a] != s[b]
  }

  /** The table after `record_source(pos, counts, var, snr)`: one item appended to each list. */
  function Record(t: SourcesTable, p: Pos, c: real, v: Ext, s: Snr): (r: SourcesTable)
    ensures Aligned(t) ==> Aligned(r)
    ensures |r.pos| == |t.pos| + 1 && r.pos[..|t.pos|] == t.pos && r.pos[|t.pos|] == p
  {
    SourcesTable(t.pos + [p], t.counts + [c], t.stds + [v], t.snrs + [s])
  }

  /** What `select_source` returns: the brightest position, its counts, and the peak count. */
  datatype Selection = Selection(loc: Pos, counts: real, peaks: nat)

  /** Two maps of one shape, the first non-empty. */
  predicate Maps<T, U>(sky: seq<seq<T>>, other: seq<seq<U>>)
  {
    NonEmpty(sky) && IsGrid(other, |sky|, Cols(sky))
  }

  /** The selection `select_source` returns for these maps. */
  function SelectionOf(sky: Matrix, snr: seq<seq<Snr>>, threshold: real): (sel: Selection)
    requires Maps(sky, snr)
    ensures IsFirstMax(sky, sel.loc) && sel.counts == sky[sel.loc.0][sel.loc.1]
    ensures sel.peaks == CountAbove(snr, threshold)
  {
    var loc := Argmax(sky).value;
    Selection(loc, sky[loc.0][loc.1], CountAbove(snr, threshold))
  }

  /**
   * The dataset after `select_source`: unchanged when the SNR at the
   * brightest position does not exceed the threshold or that position is
   * already listed, and otherwise that position recorded with its counts,
   * variance and SNR.
   */
  function RecordedTable(t: SourcesTable, sky: Matrix, variance: seq<seq<Ext>>, snr: seq<seq<Snr>>,
                         threshold: real): (r: SourcesTable)
    requires Maps(sky, snr) && Maps(sky, variance)
    ensures var p := SelectionOf(sky, snr, threshold).loc;
            if Exceeds(snr[p.0][p.1], threshold) && p !in t.pos
            then r == Record(t, p, sky[p.0][p.1], variance[p.0][p.1], snr[p.0][p.1])
            else r == t
  {
    var p := SelectionOf(sky, snr, threshold).loc;
    if !Exceeds(snr[p.0][p.1], threshold) then t
    else if p in t.pos then t
    else Record(t, p, sky[p.0][p.1], variance[p.0][p.1], snr[p.0][p.1])
  }

  /** Selection keeps the lists aligned and free of duplicate positions, and adds at most one source. */
  lemma SelectKeepsTable(t: SourcesTable, sky: Matrix, variance: seq<seq<Ext>>, snr: seq<seq<Snr>>, threshold: real)
    requires Maps(sky, snr) && Maps(sky, variance)
    requires Aligned(t) && Distinct(t.pos)
    ensures var r := RecordedTable(t, sky, variance, snr, threshold);
            Aligned(r) && Distinct(r.pos) && t.pos <= r.pos && |r.pos| <= |t.pos| + 1
  {
    var r := RecordedTable(t, sky, variance, snr, threshold);
    if r != t {
      var p := SelectionOf(sky, snr, threshold).loc;
      assert r.pos == t.pos + [p] && p !in t.pos;
      forall a, b | 0 <= a < b < |r.pos| ensures r.pos[a] != r.pos[b] {
        if b == |t.pos| {
          assert r.pos[a] == t.pos[a];
        }
      }
    }
  }

  /** A threshold crossing at the brightest position is itself a peak, so a zero peak count records nothing. */
  lemma NoPeaksNoRecord(t: SourcesTable, sky: Matrix, variance: seq<seq<Ext>>, snr: seq<seq<Snr>>, threshold: real)
    requires Maps(sky, snr) && Maps(sky, variance)
    requires SelectionOf(sky, snr, threshold).peaks == 0
    ensures RecordedTable(t, sky, variance, snr, threshold) == t
  {
    NoPeaks(snr, threshold);
  }

  /** The dataset dict of `select_source`: four lists that the selection appends to in place. */
  class SourcesDataset {
    var sourcesPos: seq<Pos>
    var sourcesCounts: seq<real>
    var sourcesStds: seq<Ext>
    var sourcesSnrs: seq<Snr>

    function Table(): SourcesTable
      reads this
    {
      SourcesTable(sourcesPos, sourcesCounts, sourcesStds, sourcesSnrs)
    }

    predicate Valid()
      reads this
    {
      Aligned(Table()) && Distinct(sourcesPos)
    }

    constructor ()
      ensures Valid() && Table() == EmptyTable
    {
      sourcesPos, sourcesCounts, sourcesStds, sourcesSnrs := [], [], [], [];
    }

    /** `record_source`: appends one item to each of the four lists. */
    method RecordSource(p: Pos, c: real, v: Ext, s: Snr)
      modifies this
      ensures Table() == Record(old(Table()), p, c, v, s)
    {
      sourcesPos := sourcesPos + [p];
      sourcesCounts := sourcesCounts + [c];
      sourcesStds := sourcesStds + [v];
      sourcesSnrs := sourcesSnrs + [s];
    }

    /** `select_source`: selects the brightest position and records it when it is a new detection. */
    method SelectSource(sky: Matrix, variance: seq<seq<Ext>>, snr: seq<seq<Snr>>, threshold: real)
      returns (loc: Pos, counts: real, n: nat)
      requires Valid() && Maps(sky, snr) && Maps(sky, variance)
      modifies this
      ensures Selection(loc, counts, n) == SelectionOf(sky, snr, threshold)
      ensures Table() == RecordedTable(old(Table()), sky, variance, snr, threshold)
      ensures n == 0 ==> Table() == old(Table())
      ensures Valid()
    {
      SelectKeepsTable(Table(), sky, variance, snr, threshold);
      loc := Argmax(sky).value;
      counts := sky[loc.0][loc.1];
      var snrAt := snr[loc.0][loc.1];
      n := CountAbove(snr, threshold);
      if n == 0 {
        NoPeaksNoRecord(Table(), sky, variance, snr, threshold);
      }
      if !Exceeds(snrAt, threshold) {
        return;
      } else if loc in sourcesPos {
        return;
      } else {
        RecordSource(loc, counts, variance[loc.0][loc.1], snrAt);
      }
    }
  }

  // ---- the IROS loop ----

  /** `detector[detector < 0] = 0` on a freshly computed array. */
  function ClampNegative(m: Matrix): (z: Matrix)
    ensures SameShape(z, m) && NonNegative(z)
    ensures forall i, j :: 0 <= i < |m| && 0 <= j < |m[i]| ==> z[i][j] == if m[i][j] < 0.0 then 0.0 else m[i][j]
  {
    seq(|m|, i requires 0 <= i < |m| => seq(|m[i]|, j requires 0 <= j < |m[i]| => if m[i][j] < 0.0 then 0.0 else m[i][j]))
  }

  /** Clamping keeps a non-negative image as it is. */
  lemma ClampKeepsNonNegative(m: Matrix)
    requires NonNegative(m)
    ensures ClampNegative(m) == m
  {
    var z := ClampNegative(m);
    forall i | 0 <= i < |m| ensures z[i] == m[i] {
      assert |z[i]| == |m[i]|;
    }
  }

  /** What one IROS iteration yields: the normalised sky and variance, the raw SNR map and the sources. */
  datatype Step = Step(sky: Matrix, variance: seq<seq<Ext>>, snr: seq<seq<Snr>>, sources: SourcesTable)

  /** One iteration's observation: what it yields, and the selection. */
  datatype Observation = Observation(step: Step, sel: Selection)

  /**
   * Reconstruct, take the SNR of the raw reconstruction, normalise, and
   * select a source on the normalised sky and variance with the raw SNR.
   */
  function Observe(detector: Matrix, t: SourcesTable, threshold: real, cam: Camera): (ob: Observation)
    requires ValidCamera(cam) && HasShape(detector, cam.detectorShape)
    ensures HasShape(ob.step.sky, cam.skyShape) && InBounds(ob.sel.loc, cam.skyShape)
    ensures Maps(ob.step.sky, ob.step.snr) && Maps(ob.step.sky, ob.step.variance)
    ensures ob.sel == SelectionOf(ob.step.sky, ob.step.snr, threshold)
    ensures ob.step.sources == RecordedTable(t, ob.step.sky, ob.step.variance, ob.step.snr, threshold)
  {
    ReconstructionShape(detector, cam);
    var rec := SkyReconstruction(detector, cam).value;
    var snr := ReconstructionSnr(rec);
    var norm := SkyrecNorm(rec, cam);
    var sel := SelectionOf(norm.sky, snr, threshold);
    Observation(Step(norm.sky, norm.variance, snr, RecordedTable(t, norm.sky, norm.variance, snr, threshold)), sel)
  }

  /**
   * The detector after removing the selected source: its shadowgram
   * subtracted, negative counts set to 0; `None` when the shadowgram is.
   */
  function RemoveSource(detector: Matrix, sel: Selection, cam: Camera): (d: Option<Matrix>)
    requires ValidCamera(cam) && HasShape(detector, cam.detectorShape) && InBounds(sel.loc, cam.skyShape)
    ensures d.Some? <==> GetShadowgram(sel.loc, sel.counts, cam).Some?
    ensures d.Some? ==> HasShape(d.value, cam.detectorShape) && NonNegative(d.value)
    ensures d.Some? ==> forall t, u :: 0 <= t < |d.value| && 0 <= u < Cols(d.value) ==>
              var x := detector[t][u] - GetShadowgram(sel.loc, sel.counts, cam).value[t][u];
              d.value[t][u] == if x < 0.0 then 0.0 else x
  {
    var g := GetShadowgram(sel.loc, sel.counts, cam);
    if g.None? then None else Some(ClampNegative(Sub(detector, g.value)))
  }

  /** The state the IROS loop carries from one iteration to the next: the detector image and the sources dataset. */
  datatype State = State(detector: Matrix, sources: SourcesTable)

  /** The states IROS runs on: a detector image of the camera's detector shape. */
  function Fits(cam: Camera): State -> bool
  {
    (s: State) => HasShape(s.detector, cam.detectorShape)
  }

  /**
   * One iteration of `IROS`: observe the detector, and leave the detector with
   * the selected source's shadowgram taken away and the updated dataset; no
   * state when the shadowgram is not defined.
   */
  function IterationOf(threshold: real, cam: Camera, s: State): (it: Iteration<State, Step>)
    requires ValidCamera(cam) && HasShape(s.detector, cam.detectorShape)
    ensures Admits(Fits(cam), it.next)
  {
    var ob := Observe(s.detector, s.sources, threshold, cam);
    var d := RemoveSource(s.detector, ob.sel, cam);
    Iteration(ob.step, ob.sel.peaks, if d.Some? then Some(State(d.value, ob.step.sources)) else None)
  }

  /** `IterationOf` as the step function of the generator loop. */
  function Iterate(threshold: real, cam: Camera): (f: State --> Iteration<State, Step>)
    requires ValidCamera(cam)
    ensures Closed(f, Fits(cam))
  {
    (s: State) requires ValidCamera(cam) && HasShape(s.detector, cam.detectorShape) => IterationOf(threshold, cam, s)
  }

  /**
   * `IROS(data, snr_threshold, cam, max_iterations)` run to the end: its
   * yields, the SNR peak counts it logged, and what it returned if no peak was
   * left before the last iteration.
   */
  function IrosRun(data: Matrix, threshold: real, cam: Camera, maxIterations: nat): Outcome<Step>
    requires ValidCamera(cam) && HasShape(data, cam.detectorShape)
  {
    Run(Iterate(threshold, cam), Fits(cam), State(data, EmptyTable), maxIterations)
  }

  /**
   * IROS yields at most once per iteration, logs one positive peak count per
   * yield, and returns early only with iterations to spare.
   */
  lemma IrosBounded(data: Matrix, threshold: real, cam: Camera, maxIterations: nat)
    requires ValidCamera(cam) && HasShape(data, cam.detectorShape)
    ensures var o := IrosRun(data, threshold, cam, maxIterations);
            |o.emitted| <= maxIterations && |o.peaks| == |o.emitted| &&
            (forall k :: 0 <= k < |o.peaks| ==> o.peaks[k] > 0) &&
            (o.stop.Some? ==> |o.emitted| < maxIterations) &&
            (o.undefined ==> o.stop.None? && 0 < |o.emitted| < maxIterations)
  {
    RunBounded(Iterate(threshold, cam), Fits(cam), State(data, EmptyTable), maxIterations);
  }

  /** A dataset with aligned lists and no position listed twice. */
  predicate WellKept(t: SourcesTable)
  {
    Aligned(t) && Distinct(t.pos)
  }

  /**
   * From a well-kept dataset, an iteration yields a well-kept dataset and
   * leaves one, if it leaves a state; when it finds no peak, its dataset is
   * the one it started from.
   */
  lemma IterateKeepsTable(threshold: real, cam: Camera, s: State)
    requires ValidCamera(cam) && HasShape(s.detector, cam.detectorShape) && WellKept(s.sources)
    ensures var it := IterationOf(threshold, cam, s);
            WellKept(it.out.sources) && (it.next.Some? ==> it.next.value.sources == it.out.sources) &&
            (it.peaks == 0 ==> it.out.sources == s.sources)
  {
    var ob := Observe(s.detector, s.sources, threshold, cam);
    SelectKeepsTable(s.sources, ob.step.sky, ob.step.variance, ob.step.snr, threshold);
    if ob.sel.peaks == 0 {
      NoPeaksNoRecord(s.sources, ob.step.sky, ob.step.variance, ob.step.snr, threshold);
    }
  }

  /** A state, and a step, whose dataset is well kept. */
  const KeptState: State -> bool := (s: State) => WellKept(s.sources)
  const KeptStep: Step -> bool := (y: Step) => WellKept(y.sources)

  /** Every iteration keeps the dataset well kept. */
  lemma IterateKeeps(threshold: real, cam: Camera)
    requires ValidCamera(cam)
    ensures Keeps(Iterate(threshold, cam), Fits(cam), KeptState, KeptStep)
  {
    forall s | Fits(cam)(s) && KeptState(s)
      ensures KeptStep(Iterate(threshold, cam)(s).out)
      ensures Iterate(threshold, cam)(s).next.Some? ==> KeptState(Iterate(threshold, cam)(s).next.value)
    {
      IterateKeepsTable(threshold, cam, s);
    }
  }

  /**
   * Every dataset IROS yields or returns keeps its lists aligned and free of
   * duplicate positions.
   */
  lemma IrosDistinct(data: Matrix, threshold: real, cam: Camera, maxIterations: nat)
    requires ValidCamera(cam) && HasShape(data, cam.detectorShape)
    ensures Everywhere(IrosRun(data, threshold, cam, maxIterations), KeptStep)
  {
    IterateKeeps(threshold, cam);
    RunKeeps(Iterate(threshold, cam), Fits(cam), KeptState, KeptStep, State(data, EmptyTable), maxIterations);
  }

  /** A step whose SNR map has no cell over `threshold`. */
  function Clean(threshold: real): Step -> bool
  {
    (y: Step) => CountAbove(y.snr, threshold) == 0
  }

  /** An iteration that finds no peak yields an SNR map with no peak. */
  lemma IterateStopsClean(threshold: real, cam: Camera)
    requires ValidCamera(cam)
    ensures StopsWith(Iterate(threshold, cam), Fits(cam), Clean(threshold))
  {
    forall s | Fits(cam)(s) && Iterate(threshold, cam)(s).peaks == 0
      ensures Clean(threshold)(Iterate(threshold, cam)(s).out)
    {
      var ob := Observe(s.detector, s.sources, threshold, cam);
    }
  }

  /** When IROS returns early, no cell of the SNR map it returns exceeds the threshold. */
  lemma IrosStopsClean(data: Matrix, threshold: real, cam: Camera, maxIterations: nat)
    requires ValidCamera(cam) && HasShape(data, cam.detectorShape)
    ensures var o := IrosRun(data, threshold, cam, maxIterations);
            o.stop.Some? ==> forall r, c :: 0 <= r < |o.stop.value.snr| && 0 <= c < |o.stop.value.snr[r]| ==>
                                             !Exceeds(o.stop.value.snr[r][c], threshold)
  {
    IterateStopsClean(threshold, cam);
    RunStops(Iterate(threshold, cam), Fits(cam), Clean(threshold), State(data, EmptyTable), maxIterations);
    var o := IrosRun(data, threshold, cam, maxIterations);
    if o.stop.Some? {
      NoPeaks(o.stop.value.snr, threshold);
    }
  }

  /** The cells of a 2-D array, row by row. */
  function Cells(a: array2<real>): (m: Matrix)
    reads a
    ensures IsGrid(m, a.Length0, a.Length1)
    ensures forall i, j :: 0 <= i < a.Length0 && 0 <= j < a.Length1 ==> m[i][j] == a[i, j]
  {
    seq(a.Length0, i requires 0 <= i < a.Length0 reads a => seq(a.Length1, j requires 0 <= j < a.Length1 reads a => a[i, j]))
  }

  /**
   * One pass of the `IROS` loop body on `detector`: reconstruct the sky,
   * select a source (recording it in the dataset), and when SNR peaks remain
   * take its shadowgram away from the detector, clamping negative counts.
   * `next` is `None` when that shadowgram is not defined.
   */
  method IrosIteration(detector: Matrix, sourcesDataset: SourcesDataset, threshold: real, cam: Camera)
    returns (step: Step, nPeaks: nat, next: Option<Matrix>)
    requires ValidCamera(cam) && HasShape(detector, cam.detectorShape) && sourcesDataset.Valid()
    modifies sourcesDataset
    ensures sourcesDataset.Valid() && sourcesDataset.Table() == step.sources
    ensures next.Some? ==> HasShape(next.value, cam.detectorShape)
    ensures var it := IterationOf(threshold, cam, State(detector, old(sourcesDataset.Table())));
            step == it.out && nPeaks == it.peaks &&
            (nPeaks > 0 ==> next.Some? == it.next.Some?) &&
            (nPeaks > 0 && next.Some? ==> State(next.value, sourcesDataset.Table()) == it.next.value)
    ensures nPeaks == 0 ==> next == Some(detector) && sourcesDataset.Table() == old(sourcesDataset.Table())
  {
    ghost var it := IterationOf(threshold, cam, State(detector, sourcesDataset.Table()));
    ReconstructionShape(detector, cam);
    var rec := SkyReconstruction(detector, cam).value;
    var skysnr := ReconstructionSnr(rec);
    var norm := SkyrecNorm(rec, cam);
    var loc, fluence;
    loc, fluence, nPeaks := sourcesDataset.SelectSource(norm.sky, norm.variance, skysnr, threshold);
    step := Step(norm.sky, norm.variance, skysnr, sourcesDataset.Table());
    assert step == it.out && nPeaks == it.peaks;
    if nPeaks > 0 {
      var shadowgram := GetShadowgram(loc, fluence, cam);
      if shadowgram.Some? {
        next := Some(ClampNegative(Sub(detector, shadowgram.value)));
      } else {
        next := None;
      }
    } else {
      next := Some(detector);
    }
  }

  /**
   * `IROS` run to completion: the generator's yields, the SNR peak log, and
   * the value it returns when no peak is left. It works on its own copy of
   * the detector image `data`.
   */
  method Iros(data: Matrix, threshold: real, cam: Camera, maxIterations: nat) returns (o: Outcome<Step>)
    requires ValidCamera(cam) && HasShape(data, cam.detectorShape)
    ensures o == IrosRun(data, threshold, cam, maxIterations)
  {
    ghost var iterate, inv := Iterate(threshold, cam), Fits(cam);
    ghost var whole := IrosRun(data, threshold, cam, maxIterations);
    var detector := data;
    var sourcesDataset := new SourcesDataset();
    var emitted, peaksLog := [], [];
    var i := 0;
    ghost var left: nat, state := maxIterations, State(detector, EmptyTable);
    ResumesStart(iterate, inv, state, maxIterations);
    while i < maxIterations
      invariant 0 <= i <= maxIterations && left == maxIterations - i
      invariant HasShape(detector, cam.detectorShape) && sourcesDataset.Valid()
      invariant state == State(detector, sourcesDataset.Table()) && inv(state)
      invariant Resumes(iterate, inv, emitted, peaksLog, state, left, whole)
      decreases maxIterations - i
    {
      var step, nPeaks, next := IrosIteration(detector, sourcesDataset, threshold, cam);
      if nPeaks > 0 {
        if next.None? {
          ResumesUndefined(iterate, inv, emitted, peaksLog, state, left, whole, step, nPeaks);
          return Outcome(emitted + [step], peaksLog + [nPeaks], None, i + 1 < maxIterations);
        }
        ghost var emitted0, peaks0, state0, left0 := emitted, peaksLog, state, left;
        detector := next.value;
        emitted, peaksLog := emitted + [step], peaksLog + [nPeaks];
        i, left, state := i + 1, left - 1, State(next.value, sourcesDataset.Table());
        ResumesStep(iterate, inv, emitted0, peaks0, state0, left0, whole, step, nPeaks, state, emitted, peaksLog, left);
      } else {
        ResumesStop(iterate, inv, emitted, peaksLog, state, left, whole, step);
        return Outcome(emitted, peaksLog, Some(step), false);
      }
    }
    ResumesEnd(iterate, inv, emitted, peaksLog, state, left, whole);
    o := Outcome(emitted, peaksLog, None, false);
  }

  // ---- the reconstructed sky ----

  /**
   * The sky cell `(r, c)` after writing `counts[k]` at `pos[k]` for every `k`
   * in order: the counts of the last source listed at `(r, c)`, 0 if none is.
   */
  function Placed(pos: seq<Pos>, counts: seq<real>, r: nat, c: nat): real
    requires |counts| >= |pos|
  {
    if |pos| == 0 then 0.0
    else if pos[|pos| - 1] == (r, c) then counts[|pos| - 1]
    else Placed(pos[..|pos| - 1], counts, r, c)
  }

  /** With no duplicate positions, the sky holds each source's counts at its position and 0 elsewhere. */
  lemma {:induction false} PlacedDistinct(pos: seq<Pos>, counts: seq<real>, r: nat, c: nat)
    requires |counts| >= |pos| && Distinct(pos)
    ensures (r, c) !in pos ==> Placed(pos, counts, r, c) == 0.0
    ensures forall k :: 0 <= k < |pos| && pos[k] == (r, c) ==> Placed(pos, counts, r, c) == counts[k]
    decreases |pos|
  {
    if |pos| > 0 {
      var init := pos[..|pos| - 1];
      assert Distinct(init);
      PlacedDistinct(init, counts, r, c);
      if pos[|pos| - 1] == (r, c) {
        forall k | 0 <= k < |pos| && pos[k] == (r, c) ensures k == |pos| - 1 {
        }
      } else {
        forall k | 0 <= k < |pos| && pos[k] == (r, c) ensures k < |pos| - 1 && init[k] == (r, c) {
        }
      }
    }
  }

  /**
   * `iros_skyrec`: the sky holding every recorded source's counts at its
   * position, and the residues of the simulated sky image against it.
   */
  method IrosSkyrec(skyImage: Matrix, t: SourcesTable, cam: Camera) returns (sky: Matrix, residues: Matrix)
    requires HasShape(skyImage, cam.skyShape) && Aligned(t)
    requires forall k :: 0 <= k < |t.pos| ==> InBounds(t.pos[k], cam.skyShape)
    ensures HasShape(sky, cam.skyShape) && HasShape(residues, cam.skyShape)
    ensures forall i, j :: 0 <= i < cam.skyShape.rows && 0 <= j < cam.skyShape.cols ==>
              sky[i][j] == Placed(t.pos, t.counts, i, j) && residues[i][j] == skyImage[i][j] - sky[i][j]
  {
    var a := new real[cam.skyShape.rows, cam.skyShape.cols]((i, j) => 0.0);
    var idx := 0;
    while idx < |t.pos|
      invariant 0 <= idx <= |t.pos|
      invariant forall i, j :: 0 <= i < a.Length0 && 0 <= j < a.Length1 ==> a[i, j] == Placed(t.pos[..idx], t.counts, i, j)
    {
      var pos := t.pos[idx];
      a[pos.0, pos.1] := t.counts[idx];
      assert t.pos[..idx + 1][..idx] == t.pos[..idx];
      idx := idx + 1;
    }
    assert t.pos[..|t.pos|] == t.pos;
    sky := Cells(a);
    residues := Sub(skyImage, sky);
  }
}
