/**
 * The per-window magnitude-frequency analysis loop (examples/driver.py,
 * lines 41-64): for each window, select its magnitudes, skip it when it has
 * none, build log10 of the cumulative counts and the design matrix of rows
 * (1, M), fit a line, and report a = intercept and b = -slope.
 *
 * The base-10 logarithm and the least-squares fit are parameters: `log10`,
 * and `regress`, which yields the coefficient pair (a[0], a[1]) or None when
 * the normal equations are singular. A singular fit raises in the source and
 * ends the whole loop.
 */
module Driver {
  import opened Wrappers
  import opened Windows
  import opened Ordering
  import opened MagnitudeCounts

  /** A row of the design matrix: the intercept column and the magnitude. */
  datatype Row = Row(one: real, mag: real)

  /** The first two fitted coefficients a[0] (intercept) and a[1] (slope). */
  datatype LineFit = LineFit(intercept: real, slope: real)

  /** What the loop does with one window. */
  datatype Outcome = Skipped | Fitted(aValue: real, bValue: real) | Failed

  /** The regression inputs of one window: y = log10(N >= M) and Z = column_stack((1, M)). */
  datatype Inputs = Inputs(y: seq<real>, z: seq<Row>)

  /** The magnitudes of the events whose time lies in window i. */
  function WindowMagnitudes(ws: seq<Window>, i: nat, times: seq<real>, mags: seq<real>): seq<real>
    requires i < |ws| && |times| == |mags|
  {
    Compress(mags, Mask(ws, i, times))
  }

  /** The selected positions whose value is at least v. */
  ghost function AtLeastHits(xs: seq<real>, mask: seq<bool>, v: real): set<nat>
    requires |xs| == |mask|
  {
    set k: nat | k < |xs| && mask[k] && xs[k] >= v
  }

  /** The selection has as many entries >= v as there are selected positions holding one. */
  lemma {:induction false} CompressAtLeast(xs: seq<real>, mask: seq<bool>, v: real)
    requires |xs| == |mask|
    ensures CountAtLeast(Compress(xs, mask), v) == |AtLeastHits(xs, mask, v)|
  {
    if |xs| == 0 {
      assert AtLeastHits(xs, mask, v) == {};
    } else {
      var n := |xs| - 1;
      var prefix := Compress(xs[..n], mask[..n]);
      CompressAtLeast(xs[..n], mask[..n], v);
      CountAtLeastAppend(prefix, xs[n], v);
      var before := AtLeastHits(xs[..n], mask[..n], v);
      if mask[n] && xs[n] >= v {
        assert AtLeastHits(xs, mask, v) == before + {n};
        assert n !in before;
      } else {
        assert AtLeastHits(xs, mask, v) == before;
      }
    }
  }

  /**
   * The magnitudes selected for window i include, for every v, exactly as
   * many values >= v as there are events in the window with magnitude >= v.
   */
  lemma WindowCountsAtLeast(ws: seq<Window>, i: nat, times: seq<real>, mags: seq<real>, v: real)
    requires i < |ws| && |times| == |mags|
    ensures CountAtLeast(WindowMagnitudes(ws, i, times, mags), v) ==
      |set k: nat | k < |times| && InWindow(ws, i, times[k]) && mags[k] >= v|
  {
    var mask := Mask(ws, i, times);
    CompressAtLeast(mags, mask, v);
    assert AtLeastHits(mags, mask, v) == set k: nat | k < |times| && InWindow(ws, i, times[k]) && mags[k] >= v;
  }

  /** np.column_stack((np.ones_like(u), u)) */
  function DesignMatrix(u: seq<real>): (z: seq<Row>)
    ensures |z| == |u|
  {
    seq(|u|, i requires 0 <= i < |u| => Row(1.0, u[i]))
  }

  /** log10 of the cumulative counts, and the design matrix, of the selected magnitudes. */
  function RegressionInputs(sel: seq<real>, log10: real -> real): Inputs
  {
    var cum := CumulativeCounts(sel);
    Inputs(seq(|cum|, k requires 0 <= k < |cum| => log10(cum[k] as real)), DesignMatrix(Unique(sel)))
  }

  /**
   * The regression inputs have one row per distinct magnitude, in increasing
   * order of magnitude; row i is (1, M_i) and its response is log10 of the
   * number of selected events with magnitude >= M_i.
   */
  lemma RegressionInputsLaws(sel: seq<real>, log10: real -> real)
    ensures var inp, u := RegressionInputs(sel, log10), Unique(sel);
      |inp.y| == |inp.z| == |u| &&
      StrictlyIncreasing(u) && (forall m :: m in u <==> m in sel) &&
      forall i :: 0 <= i < |u| ==>
        inp.z[i] == Row(1.0, u[i]) && inp.y[i] == log10(CountAtLeast(sel, u[i]) as real)
  {
    CumulativeCountsLaws(sel);
  }

  /**
   * One pass of the loop body for window i: the window is skipped exactly
   * when no event time lies in it; otherwise it fails exactly when the fit
   * does, and a fit (a0, a1) is reported as a = a0 and b = -a1.
   */
  function AnalyzeWindow(ws: seq<Window>, i: nat, times: seq<real>, mags: seq<real>,
                         log10: real -> real, regress: (seq<real>, seq<Row>) -> Option<LineFit>): (o: Outcome)
    requires i < |ws| && |times| == |mags|
    ensures o.Skipped? <==> forall k :: 0 <= k < |times| ==> !InWindow(ws, i, times[k])
    ensures var sel := WindowMagnitudes(ws, i, times, mags);
      var inp := RegressionInputs(sel, log10);
      (o.Failed? <==> |sel| > 0 && regress(inp.y, inp.z).None?) &&
      (o.Fitted? ==> |sel| > 0 && regress(inp.y, inp.z) == Some(LineFit(o.aValue, -o.bValue)))
  {
    var sel := WindowMagnitudes(ws, i, times, mags);
    if |sel| == 0 then Skipped
    else
      var inp := RegressionInputs(sel, log10);
      match regress(inp.y, inp.z)
      case None => Failed
      case Some(fit) => Fitted(fit.intercept, -fit.slope)
  }

  /** The outcome every window would have on its own. */
  function WindowOutcomes(ws: seq<Window>, times: seq<real>, mags: seq<real>,
                          log10: real -> real, regress: (seq<real>, seq<Row>) -> Option<LineFit>): (os: seq<Outcome>)
    requires |times| == |mags|
    ensures |os| == |ws|
  {
    seq(|ws|, i requires 0 <= i < |ws| => AnalyzeWindow(ws, i, times, mags, log10, regress))
  }

  /**
   * The loop's control flow: it goes on after a skipped or fitted window and
   * stops after a failed one, since the failure raises.
   */
  function UntilFailure(os: seq<Outcome>): seq<Outcome>
  {
    if |os| == 0 then []
    else if os[0].Failed? then [os[0]]
    else [os[0]] + UntilFailure(os[1..])
  }

  /**
   * The outcomes reported are a prefix of the windows' outcomes that contains
   * no failure except possibly its last entry, and it stops short only after
   * a failure.
   */
  lemma {:induction false} UntilFailureLaws(os: seq<Outcome>)
    ensures var out := UntilFailure(os);
      |out| <= |os| &&
      (forall k :: 0 <= k < |out| ==> out[k] == os[k]) &&
      (forall k :: 0 <= k < |out| - 1 ==> !out[k].Failed?) &&
      (|out| < |os| ==> |out| > 0 && out[|out| - 1].Failed?) &&
      ((forall k :: 0 <= k < |os| ==> !os[k].Failed?) ==> out == os)
  {
    if |os| > 0 && !os[0].Failed? {
      UntilFailureLaws(os[1..]);
      var out := UntilFailure(os);
      assert out == [os[0]] + UntilFailure(os[1..]);
      if forall k :: 0 <= k < |os| ==> !os[k].Failed? {
        assert forall k :: 0 <= k < |os| - 1 ==> os[1..][k] == os[k + 1];
        assert os == [os[0]] + os[1..];
      }
    }
  }

  /** The whole loop over the five windows. */
  function Analyze(times: seq<real>, mags: seq<real>,
                   log10: real -> real, regress: (seq<real>, seq<Row>) -> Option<LineFit>): seq<Outcome>
    requires |times| == |mags|
  {
    UntilFailure(WindowOutcomes(Intervals, times, mags, log10, regress))
  }

  /**
   * The laws of the loop: entry k is the outcome of window k; every window is
   * visited unless one fails, and then that failed window is the last entry.
   */
  lemma AnalyzeLaws(times: seq<real>, mags: seq<real>,
                    log10: real -> real, regress: (seq<real>, seq<Row>) -> Option<LineFit>)
    requires |times| == |mags|
    ensures var out := Analyze(times, mags, log10, regress);
      |out| <= |Intervals| &&
      (forall k :: 0 <= k < |out| ==> out[k] == AnalyzeWindow(Intervals, k, times, mags, log10, regress)) &&
      (forall k :: 0 <= k < |out| - 1 ==> !out[k].Failed?) &&
      (|out| < |Intervals| ==> |out| > 0 && out[|out| - 1].Failed?)
  {
    UntilFailureLaws(WindowOutcomes(Intervals, times, mags, log10, regress));
  }
}
