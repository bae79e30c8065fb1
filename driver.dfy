/**
 * The generator loop both IROS versions share: run one iteration, and while
 * the iteration finds SNR peaks, yield its output and go on from the state it
 * leaves; when it finds none, return its output; stop after a fixed number of
 * iterations. An iteration may leave no state that real arithmetic can
 * describe (a division by zero); the run is then undefined from that point
 * on if iterations are left.
 */
module Driver {
  import opened Grids

  /**
   * One iteration: the value it yields (or returns), its SNR peak count, and
   * the state it leaves, `None` when that state is not a real-valued one.
   */
  datatype Iteration<S, Y> = Iteration(out: Y, peaks: nat, next: Option<S>)

  /**
   * A generator run: its yields, the peak counts logged with them, the value
   * it returned if it stopped early, and whether it went on from a state that
   * is not real-valued.
   */
  datatype Outcome<Y> = Outcome(emitted: seq<Y>, peaks: seq<nat>, stop: Option<Y>, undefined: bool)

  /** A state left by an iteration satisfies `inv`, if there is one. */
  predicate Admits<S>(inv: S -> bool, next: Option<S>)
  {
    next.Some? ==> inv(next.value)
  }

  /** `iterate` is defined on every state satisfying `inv`, and any state it leaves satisfies `inv`. */
  ghost predicate Closed<S(!new), Y>(iterate: S --> Iteration<S, Y>, inv: S -> bool)
  {
    forall s :: inv(s) ==> iterate.requires(s) && Admits(inv, iterate(s).next)
  }

  /** The rest of the run from state `s` with `remaining` iterations left. */
  function Run<S(!new), Y>(iterate: S --> Iteration<S, Y>, inv: S -> bool, s: S, remaining: nat): Outcome<Y>
    requires Closed(iterate, inv) && inv(s)
    decreases remaining
  {
    if remaining == 0 then Outcome([], [], None, false)
    else
      var it := iterate(s);
      if it.peaks > 0 then
        var rest := if it.next.None? then Outcome([], [], None, remaining > 1)
                    else Run(iterate, inv, it.next.value, remaining - 1);
        Outcome([it.out] + rest.emitted, [it.peaks] + rest.peaks, rest.stop, rest.undefined)
      else
        Outcome([], [], Some(it.out), false)
  }

  /**
   * A run yields at most once per iteration, logs one positive peak count per
   * yield, and returns early only with iterations to spare. It is undefined
   * only after a yield with iterations to spare, and then returns nothing.
   */
  lemma {:induction false} RunBounded<S(!new), Y>(iterate: S --> Iteration<S, Y>, inv: S -> bool, s: S, remaining: nat)
    requires Closed(iterate, inv) && inv(s)
    ensures var o := Run(iterate, inv, s, remaining);
            |o.emitted| <= remaining && |o.peaks| == |o.emitted| &&
            (forall k :: 0 <= k < |o.peaks| ==> o.peaks[k] > 0) &&
            (o.stop.Some? ==> |o.emitted| < remaining) &&
            (o.undefined ==> o.stop.None? && 0 < |o.emitted| < remaining)
    decreases remaining
  {
    if remaining > 0 {
      var it := iterate(s);
      if it.peaks > 0 && it.next.Some? {
        RunBounded(iterate, inv, it.next.value, remaining - 1);
        var rest := Run(iterate, inv, it.next.value, remaining - 1);
        var o := Run(iterate, inv, s, remaining);
        forall k | 0 <= k < |o.peaks| ensures o.peaks[k] > 0 {
          if k > 0 {
            assert o.peaks[k] == rest.peaks[k - 1];
          }
        }
      }
    }
  }

  /** Every iteration from a state satisfying `inv` leaves a state. */
  ghost predicate Total<S(!new), Y>(iterate: S --> Iteration<S, Y>, inv: S -> bool)
    requires Closed(iterate, inv)
  {
    forall s :: inv(s) ==> iterate(s).next.Some?
  }

  /** When no iteration loses the state, the run is never undefined. */
  lemma {:induction false} RunDefined<S(!new), Y>(iterate: S --> Iteration<S, Y>, inv: S -> bool, s: S, remaining: nat)
    requires Closed(iterate, inv) && Total(iterate, inv) && inv(s)
    ensures !Run(iterate, inv, s, remaining).undefined
    decreases remaining
  {
    if remaining > 0 && iterate(s).peaks > 0 {
      RunDefined(iterate, inv, iterate(s).next.value, remaining - 1);
    }
  }

  /** The first iteration decides: it is the first yield if it finds peaks, and the returned value if not. */
  lemma RunFirst<S(!new), Y>(iterate: S --> Iteration<S, Y>, inv: S -> bool, s: S, remaining: nat)
    requires Closed(iterate, inv) && inv(s) && remaining > 0
    ensures var o := Run(iterate, inv, s, remaining);
            (iterate(s).peaks > 0 ==> o.emitted[0] == iterate(s).out && o.peaks[0] == iterate(s).peaks) &&
            (iterate(s).peaks == 0 ==> o == Outcome([], [], Some(iterate(s).out), false))
  {
  }

  /**
   * A property `good` of states that every iteration keeps, and that makes
   * every output `ok`, holds for every value the run yields or returns.
   */
  ghost predicate Keeps<S(!new), Y>(iterate: S --> Iteration<S, Y>, inv: S -> bool, good: S -> bool, ok: Y -> bool)
    requires Closed(iterate, inv)
  {
    forall s :: inv(s) && good(s) ==> ok(iterate(s).out) && (iterate(s).next.Some? ==> good(iterate(s).next.value))
  }

  /** Every value the run yields, and the value it returns if it stopped, is `ok`. */
  predicate Everywhere<Y>(o: Outcome<Y>, ok: Y -> bool)
  {
    (forall k :: 0 <= k < |o.emitted| ==> ok(o.emitted[k])) && (o.stop.Some? ==> ok(o.stop.value))
  }

  lemma {:induction false} RunKeeps<S(!new), Y>(iterate: S --> Iteration<S, Y>, inv: S -> bool, good: S -> bool, ok: Y -> bool,
                                          s: S, remaining: nat)
    requires Closed(iterate, inv) && Keeps(iterate, inv, good, ok) && inv(s) && good(s)
    ensures Everywhere(Run(iterate, inv, s, remaining), ok)
    decreases remaining
  {
    if remaining > 0 {
      var it := iterate(s);
      if it.peaks > 0 && it.next.Some? {
        RunKeeps(iterate, inv, good, ok, it.next.value, remaining - 1);
        var rest := Run(iterate, inv, it.next.value, remaining - 1);
        var o := Run(iterate, inv, s, remaining);
        forall k | 0 <= k < |o.emitted| ensures ok(o.emitted[k]) {
          if k > 0 {
            assert o.emitted[k] == rest.emitted[k - 1];
          }
        }
      }
    }
  }

  /** Every iteration that finds no peak outputs a value that is `ok`. */
  ghost predicate StopsWith<S(!new), Y>(iterate: S --> Iteration<S, Y>, inv: S -> bool, ok: Y -> bool)
    requires Closed(iterate, inv)
  {
    forall s :: inv(s) && iterate(s).peaks == 0 ==> ok(iterate(s).out)
  }

  /** The value a run returns, if it stops early, is the output of an iteration that found no peak. */
  lemma {:induction false} RunStops<S(!new), Y>(iterate: S --> Iteration<S, Y>, inv: S -> bool, ok: Y -> bool,
                                          s: S, remaining: nat)
    requires Closed(iterate, inv) && StopsWith(iterate, inv, ok) && inv(s)
    ensures var o := Run(iterate, inv, s, remaining); o.stop.Some? ==> ok(o.stop.value)
    decreases remaining
  {
    if remaining > 0 && iterate(s).peaks > 0 && iterate(s).next.Some? {
      RunStops(iterate, inv, ok, iterate(s).next.value, remaining - 1);
    }
  }

  /**
   * A loop that has yielded `emitted` with peak counts `peaks` and now holds
   * state `s` with `left` iterations to go resumes the run `whole`: what is
   * still to come is the run from `s`.
   */
  ghost predicate Resumes<S(!new), Y>(iterate: S --> Iteration<S, Y>, inv: S -> bool,
                                      emitted: seq<Y>, peaks: seq<nat>, s: S, left: nat, whole: Outcome<Y>)
    requires Closed(iterate, inv) && inv(s)
  {
    var rest := Run(iterate, inv, s, left);
    whole == Outcome(emitted + rest.emitted, peaks + rest.peaks, rest.stop, rest.undefined)
  }

  /** Before the first iteration, nothing has been yielded and the whole run is still to come. */
  lemma ResumesStart<S(!new), Y>(iterate: S --> Iteration<S, Y>, inv: S -> bool, s: S, n: nat)
    requires Closed(iterate, inv) && inv(s)
    ensures Resumes(iterate, inv, [], [], s, n, Run(iterate, inv, s, n))
  {
    var rest := Run(iterate, inv, s, n);
    assert [] + rest.emitted == rest.emitted && [] + rest.peaks == rest.peaks;
  }

  /**
   * An iteration that finds peaks yields its output `out`, logs its count
   * `count`, and hands on its next state `next`: the loop then holds
   * `emitted'`, `peaks'` and `left'`.
   */
  lemma ResumesStep<S(!new), Y>(iterate: S --> Iteration<S, Y>, inv: S -> bool,
                                emitted: seq<Y>, peaks: seq<nat>, s: S, left: nat, whole: Outcome<Y>,
                                out: Y, count: nat, next: S, emitted': seq<Y>, peaks': seq<nat>, left': nat)
    requires Closed(iterate, inv) && inv(s) && left > 0 && iterate(s).peaks > 0
    requires out == iterate(s).out && count == iterate(s).peaks && iterate(s).next == Some(next)
    requires emitted' == emitted + [out] && peaks' == peaks + [count] && left' == left - 1
    requires Resumes(iterate, inv, emitted, peaks, s, left, whole)
    ensures inv(next) && Resumes(iterate, inv, emitted', peaks', next, left', whole)
  {
    var rest := Run(iterate, inv, next, left - 1);
    assert emitted + ([out] + rest.emitted) == (emitted + [out]) + rest.emitted;
    assert peaks + ([count] + rest.peaks) == (peaks + [count]) + rest.peaks;
  }

  /** An iteration that finds no peak ends the run, returning its output `out`. */
  lemma ResumesStop<S(!new), Y>(iterate: S --> Iteration<S, Y>, inv: S -> bool,
                                emitted: seq<Y>, peaks: seq<nat>, s: S, left: nat, whole: Outcome<Y>, out: Y)
    requires Closed(iterate, inv) && inv(s) && left > 0 && iterate(s).peaks == 0 && out == iterate(s).out
    requires Resumes(iterate, inv, emitted, peaks, s, left, whole)
    ensures whole == Outcome(emitted, peaks, Some(out), false)
  {
    assert emitted + [] == emitted && peaks + [] == peaks;
  }

  /**
   * An iteration that finds peaks but leaves no real-valued state yields its
   * output `out` and logs its count `count`; the run is then undefined if
   * iterations are left after it.
   */
  lemma ResumesUndefined<S(!new), Y>(iterate: S --> Iteration<S, Y>, inv: S -> bool,
                                     emitted: seq<Y>, peaks: seq<nat>, s: S, left: nat, whole: Outcome<Y>,
                                     out: Y, count: nat)
    requires Closed(iterate, inv) && inv(s) && left > 0 && iterate(s).peaks > 0 && iterate(s).next.None?
    requires out == iterate(s).out && count == iterate(s).peaks
    requires Resumes(iterate, inv, emitted, peaks, s, left, whole)
    ensures whole == Outcome(emitted + [out], peaks + [count], None, left > 1)
  {
    assert emitted + ([out] + []) == emitted + [out];
    assert peaks + ([count] + []) == peaks + [count];
  }

  /** With no iteration left, the run is what has been yielded so far. */
  lemma ResumesEnd<S(!new), Y>(iterate: S --> Iteration<S, Y>, inv: S -> bool,
                               emitted: seq<Y>, peaks: seq<nat>, s: S, left: nat, whole: Outcome<Y>)
    requires Closed(iterate, inv) && inv(s) && left == 0
    requires Resumes(iterate, inv, emitted, peaks, s, left, whole)
    ensures whole == Outcome(emitted, peaks, None, false)
  {
    assert emitted + [] == emitted && peaks + [] == peaks;
  }
}
