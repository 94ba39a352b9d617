/**
 * The frequency sweep and the plotting arrays (examples/lab03.py, lines
 * 50, 101-113 and 122-131): for each of the 50 frequencies 0.1 .. 5.0 Hz the
 * asymptote list is built and the modes are solved; the three dictionaries
 * keyed by frequency receive the roots, phase velocities and wavelengths, and
 * the frequency record receives the frequency. The ragged curves are then
 * copied into dense max_modes x len(frequencies) arrays pre-filled with NaN.
 */
module Sweep {
  import opened Wrappers
  import opened Dispersion
  import opened Ordering
  import opened Asymptotes
  import opened Modes

  /** Number of rows of the dense arrays. */
  const MaxModes: nat := 6

  /** np.round(np.arange(0.1, 5.01, 0.1), 3): 0.1, 0.2, ..., 5.0. */
  function Frequencies(): (fs: seq<real>)
    ensures |fs| == 50 && fs[0] == 0.1 && fs[49] == 5.0
    ensures forall k :: 0 <= k < |fs| ==> fs[k] * 10.0 == (k + 1) as real
    ensures forall i, j :: 0 <= i < j < |fs| ==> fs[i] + 0.1 <= fs[j]
  {
    seq(50, k => (k + 1) as real / 10.0)
  }

  /** Every swept frequency lies in (0, 25), the range where the asymptotes increase. */
  lemma FrequenciesInRange()
    ensures forall j :: 0 <= j < |Frequencies()| ==> 0.0 < Frequencies()[j] < 25.0
  {
  }

  /** The asymptote list built at frequency f (lines 106-107). */
  function SweepAsymptotes(m: Math, f: real): seq<real>
    requires 0.0 < f
  {
    AsymptoteList(f, ZetaMax(m))
  }

  /** The sweep's asymptote lists are valid input for the mode solver. */
  lemma SweepAsymptotesAdmissible(m: Math, f: real)
    requires Exact(m) && 0.0 < f < 25.0
    ensures Admissible(m, f, SweepAsymptotes(m, f))
    ensures StrictlyIncreasing(SweepAsymptotes(m, f))
  {
    ZetaMaxAboveFirstBoundary(m);
    AsymptotesWithin(f, ZetaMax(m));
    AsymptotesIncreasing(f, ZetaMax(m));
  }

  /** The mode lists solved at frequency f. */
  function Curves(m: Math, f: real): ModeLists
    requires Exact(m) && 0.0 < f < 25.0
  {
    SweepAsymptotesAdmissible(m, f);
    Solve(m, f, SweepAsymptotes(m, f))
  }

  /**
   * What every sweep entry satisfies: the three curves have one length, at
   * most one mode per bracket, the roots are strictly increasing inside
   * (0, zeta_max), and every phase velocity lies strictly between beta1 and beta2.
   */
  lemma CurvesLaws(m: Math, f: real)
    requires Exact(m) && 0.0 < f < 25.0
    ensures var r := Curves(m, f);
      |r.roots| == |r.cLs| == |r.lambdas| &&
      |r.roots| <= BracketCount(SweepAsymptotes(m, f)) &&
      StrictlyIncreasing(r.roots) &&
      forall i :: 0 <= i < |r.roots| ==>
        0.0 < r.roots[i] < ZetaMax(m) && Beta1 < r.cLs[i] < Beta2
  {
    var a := SweepAsymptotes(m, f);
    SweepAsymptotesAdmissible(m, f);
    SolveBounds(m, f, a);
    RootsIncreasing(m, f, a);
  }

  /**
   * The sweep loop (lines 105-113): each frequency's curves go into the three
   * dictionaries under that frequency, and the record lists the frequencies
   * in sweep order.
   */
  method SweepFrequencies(m: Math, freqs: seq<real>)
    returns (zetaCurves: map<real, seq<real>>, cLCurves: map<real, seq<real>>,
             lambdaCurves: map<real, seq<real>>, record: seq<real>)
    requires Exact(m)
    requires forall j :: 0 <= j < |freqs| ==> 0.0 < freqs[j] < 25.0
    ensures record == freqs
    ensures forall f :: f in zetaCurves <==> f in freqs
    ensures forall f :: f in cLCurves <==> f in freqs
    ensures forall f :: f in lambdaCurves <==> f in freqs
    ensures forall f | f in freqs ::
      zetaCurves[f] == Curves(m, f).roots && cLCurves[f] == Curves(m, f).cLs &&
      lambdaCurves[f] == Curves(m, f).lambdas
  {
    zetaCurves, cLCurves, lambdaCurves, record := map[], map[], map[], [];
    for j := 0 to |freqs|
      invariant record == freqs[..j]
      invariant forall f :: f in zetaCurves <==> f in freqs[..j]
      invariant forall f :: f in cLCurves <==> f in freqs[..j]
      invariant forall f :: f in lambdaCurves <==> f in freqs[..j]
      invariant forall f | f in freqs[..j] ::
        zetaCurves[f] == Curves(m, f).roots && cLCurves[f] == Curves(m, f).cLs &&
        lambdaCurves[f] == Curves(m, f).lambdas
    {
      var f := freqs[j];
      assert freqs[..j + 1] == freqs[..j] + [f];
      var asym := SweepAsymptotes(m, f);
      SweepAsymptotesAdmissible(m, f);
      var roots, cLs, lambdas, iters, errs := SolveModesByBracketing(m, f, asym);
      zetaCurves := zetaCurves[f := roots];
      cLCurves := cLCurves[f := cLs];
      lambdaCurves := lambdaCurves[f := lambdas];
      record := record + [f];
    }
    assert freqs[..|freqs|] == freqs;
  }

  /**
   * Slot (mode, j) of a dense array: the mode-th entry of frequency j's curve
   * when it has one, NaN otherwise.
   */
  function Slot(freqs: seq<real>, curves: map<real, seq<real>>, mode: nat, j: nat): (s: Option<real>)
    requires j < |freqs| && freqs[j] in curves
    ensures s.Some? <==> mode < |curves[freqs[j]]|
    ensures s.Some? ==> s.value == curves[freqs[j]][mode]
  {
    if mode < |curves[freqs[j]]| then Some(curves[freqs[j]][mode]) else None
  }

  /** The three curve dictionaries hold every frequency, with parallel lists. */
  ghost predicate Parallel(freqs: seq<real>, zc: map<real, seq<real>>, cc: map<real, seq<real>>,
                           lc: map<real, seq<real>>)
  {
    forall j :: 0 <= j < |freqs| ==>
      freqs[j] in zc && freqs[j] in cc && freqs[j] in lc &&
      |cc[freqs[j]]| == |zc[freqs[j]]| && |lc[freqs[j]]| == |zc[freqs[j]]|
  }

  /**
   * The dense-array assembly (lines 122-131): three max_modes x len(freqs)
   * arrays filled with NaN, then, column by column, the first
   * min(len(curve), max_modes) modes of each frequency copied in.
   */
  method AssembleArrays(freqs: seq<real>, zc: map<real, seq<real>>, cc: map<real, seq<real>>,
                        lc: map<real, seq<real>>)
    returns (zetaArray: array2<Option<real>>, cLArray: array2<Option<real>>,
             lambdaArray: array2<Option<real>>)
    requires Parallel(freqs, zc, cc, lc)
    ensures fresh(zetaArray) && fresh(cLArray) && fresh(lambdaArray)
    ensures zetaArray.Length0 == MaxModes && zetaArray.Length1 == |freqs|
    ensures cLArray.Length0 == MaxModes && cLArray.Length1 == |freqs|
    ensures lambdaArray.Length0 == MaxModes && lambdaArray.Length1 == |freqs|
    ensures forall mode, j :: 0 <= mode < MaxModes && 0 <= j < |freqs| ==>
      zetaArray[mode, j] == Slot(freqs, zc, mode, j) &&
      cLArray[mode, j] == Slot(freqs, cc, mode, j) &&
      lambdaArray[mode, j] == Slot(freqs, lc, mode, j)
  {
    zetaArray := new Option<real>[MaxModes, |freqs|]((_, _) => None);
    cLArray := new Option<real>[MaxModes, |freqs|]((_, _) => None);
    lambdaArray := new Option<real>[MaxModes, |freqs|]((_, _) => None);
    for j := 0 to |freqs|
      invariant forall mode, c :: 0 <= mode < MaxModes && 0 <= c < j ==>
        zetaArray[mode, c] == Slot(freqs, zc, mode, c) &&
        cLArray[mode, c] == Slot(freqs, cc, mode, c) &&
        lambdaArray[mode, c] == Slot(freqs, lc, mode, c)
      invariant forall mode, c :: 0 <= mode < MaxModes && j <= c < |freqs| ==>
        zetaArray[mode, c].None? && cLArray[mode, c].None? && lambdaArray[mode, c].None?
    {
      var f := freqs[j];
      CopyModes(zetaArray, cLArray, lambdaArray, j, zc[f], cc[f], lc[f]);
    }
  }

  /**
   * The inner loop of the assembly for column j: rows m < min(len(zs), max_modes)
   * of the three arrays receive zs[m], cs[m] and ls[m]; nothing else changes.
   */
  method CopyModes(zetaArray: array2<Option<real>>, cLArray: array2<Option<real>>,
                   lambdaArray: array2<Option<real>>, j: nat, zs: seq<real>, cs: seq<real>, ls: seq<real>)
    requires zetaArray != cLArray && zetaArray != lambdaArray && cLArray != lambdaArray
    requires zetaArray.Length0 == cLArray.Length0 == lambdaArray.Length0 == MaxModes
    requires j < zetaArray.Length1 && j < cLArray.Length1 && j < lambdaArray.Length1
    requires |cs| == |zs| && |ls| == |zs|
    modifies zetaArray, cLArray, lambdaArray
    ensures forall r, c :: 0 <= r < MaxModes && 0 <= c < zetaArray.Length1 ==>
      zetaArray[r, c] == if c == j && r < |zs| then Some(zs[r]) else old(zetaArray[r, c])
    ensures forall r, c :: 0 <= r < MaxModes && 0 <= c < cLArray.Length1 ==>
      cLArray[r, c] == if c == j && r < |zs| then Some(cs[r]) else old(cLArray[r, c])
    ensures forall r, c :: 0 <= r < MaxModes && 0 <= c < lambdaArray.Length1 ==>
      lambdaArray[r, c] == if c == j && r < |zs| then Some(ls[r]) else old(lambdaArray[r, c])
  {
    var count := if |zs| < MaxModes then |zs| else MaxModes;
    for mode := 0 to count
      invariant forall r, c :: 0 <= r < MaxModes && 0 <= c < zetaArray.Length1 ==>
        zetaArray[r, c] == if c == j && r < mode then Some(zs[r]) else old(zetaArray[r, c])
      invariant forall r, c :: 0 <= r < MaxModes && 0 <= c < cLArray.Length1 ==>
        cLArray[r, c] == if c == j && r < mode then Some(cs[r]) else old(cLArray[r, c])
      invariant forall r, c :: 0 <= r < MaxModes && 0 <= c < lambdaArray.Length1 ==>
        lambdaArray[r, c] == if c == j && r < mode then Some(ls[r]) else old(lambdaArray[r, c])
    {
      zetaArray[mode, j] := Some(zs[mode]);
      cLArray[mode, j] := Some(cs[mode]);
      lambdaArray[mode, j] := Some(ls[mode]);
    }
  }

  /**
   * What the slots of the swept curves hold: the mode-th root, velocity and
   * wavelength or NaN, a phase velocity strictly between beta1 and beta2
   * where one is set, and roots that increase down each column with no NaN
   * above a set slot.
   */
  lemma SlotLaws(m: Math, freqs: seq<real>, zc: map<real, seq<real>>, cc: map<real, seq<real>>,
                 lc: map<real, seq<real>>)
    requires Exact(m)
    requires forall j :: 0 <= j < |freqs| ==> 0.0 < freqs[j] < 25.0
    requires forall f | f in freqs ::
      f in zc && f in cc && f in lc &&
      zc[f] == Curves(m, f).roots && cc[f] == Curves(m, f).cLs && lc[f] == Curves(m, f).lambdas
    ensures Parallel(freqs, zc, cc, lc)
    ensures forall mode, j :: 0 <= mode < MaxModes && 0 <= j < |freqs| ==>
      Slot(freqs, zc, mode, j) == (if mode < |Curves(m, freqs[j]).roots|
                                   then Some(Curves(m, freqs[j]).roots[mode]) else None)
    ensures forall mode, j :: 0 <= mode < MaxModes && 0 <= j < |freqs| ==>
      Slot(freqs, cc, mode, j) == (if mode < |Curves(m, freqs[j]).cLs|
                                   then Some(Curves(m, freqs[j]).cLs[mode]) else None)
    ensures forall mode, j :: 0 <= mode < MaxModes && 0 <= j < |freqs| ==>
      Slot(freqs, lc, mode, j) == (if mode < |Curves(m, freqs[j]).lambdas|
                                   then Some(Curves(m, freqs[j]).lambdas[mode]) else None)
    ensures forall mode, j :: 0 <= mode < MaxModes && 0 <= j < |freqs| ==>
      Slot(freqs, cc, mode, j).Some? ==> Beta1 < Slot(freqs, cc, mode, j).value < Beta2
    ensures forall r, s, j :: 0 <= r < s < MaxModes && 0 <= j < |freqs| && Slot(freqs, zc, s, j).Some? ==>
      Slot(freqs, zc, r, j).Some? && Slot(freqs, zc, r, j).value < Slot(freqs, zc, s, j).value
  {
    forall j | 0 <= j < |freqs|
      ensures var f := freqs[j];
        |cc[f]| == |zc[f]| && |lc[f]| == |zc[f]| && StrictlyIncreasing(zc[f]) &&
        forall i :: 0 <= i < |cc[f]| ==> Beta1 < cc[f][i] < Beta2
    {
      assert freqs[j] in freqs;
      CurvesLaws(m, freqs[j]);
    }
  }

  /**
   * The whole pipeline over the 50 swept frequencies: every column of the
   * zeta array is a strictly increasing run of solved roots followed by NaN,
   * and every defined phase velocity lies strictly between beta1 and beta2.
   */
  method SweepAndAssemble(m: Math)
    returns (zetaArray: array2<Option<real>>, cLArray: array2<Option<real>>,
             lambdaArray: array2<Option<real>>)
    requires Exact(m)
    ensures fresh(zetaArray) && fresh(cLArray) && fresh(lambdaArray)
    ensures zetaArray.Length0 == MaxModes && zetaArray.Length1 == |Frequencies()|
    ensures cLArray.Length0 == MaxModes && cLArray.Length1 == |Frequencies()|
    ensures lambdaArray.Length0 == MaxModes && lambdaArray.Length1 == |Frequencies()|
    ensures forall mode, j :: 0 <= mode < MaxModes && 0 <= j < |Frequencies()| ==>
      zetaArray[mode, j] == (if mode < |Curves(m, Frequencies()[j]).roots|
                             then Some(Curves(m, Frequencies()[j]).roots[mode]) else None)
    ensures forall mode, j :: 0 <= mode < MaxModes && 0 <= j < |Frequencies()| ==>
      cLArray[mode, j] == (if mode < |Curves(m, Frequencies()[j]).cLs|
                           then Some(Curves(m, Frequencies()[j]).cLs[mode]) else None)
    ensures forall mode, j :: 0 <= mode < MaxModes && 0 <= j < |Frequencies()| ==>
      lambdaArray[mode, j] == (if mode < |Curves(m, Frequencies()[j]).lambdas|
                               then Some(Curves(m, Frequencies()[j]).lambdas[mode]) else None)
    ensures forall mode, j :: 0 <= mode < MaxModes && 0 <= j < |Frequencies()| ==>
      cLArray[mode, j].Some? ==> Beta1 < cLArray[mode, j].value < Beta2
    ensures forall r, s, j :: 0 <= r < s < MaxModes && 0 <= j < |Frequencies()| && zetaArray[s, j].Some? ==>
      zetaArray[r, j].Some? && zetaArray[r, j].value < zetaArray[s, j].value
  {
    var freqs := Frequencies();
    FrequenciesInRange();
    var zc, cc, lc, record := SweepFrequencies(m, freqs);
    SlotLaws(m, freqs, zc, cc, lc);
    zetaArray, cLArray, lambdaArray := AssembleArrays(freqs, zc, cc, lc);
    forall r, s, j | 0 <= r < s < MaxModes && 0 <= j < |freqs| && zetaArray[s, j].Some?
      ensures zetaArray[r, j].Some? && zetaArray[r, j].value < zetaArray[s, j].value
    {
      assert zetaArray[r, j] == Slot(freqs, zc, r, j) && zetaArray[s, j] == Slot(freqs, zc, s, j);
    }
  }
}
