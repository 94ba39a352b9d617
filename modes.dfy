/**
 * solve_modes_by_bracketing (examples/lab03.py, lines 83-99): one refiner run
 * per pair of adjacent asymptotes, seeded 0.01 left of the right asymptote
 * with step 1e-4; a root is kept only when it lies strictly inside its bracket,
 * and then its phase velocity and wavelength are appended beside it.
 *
 * `SolveUpTo` specifies the lists after the first n brackets; `Brackets` names
 * the bracket each kept root came from.
 */
module Modes {
  import opened Wrappers
  import opened Dispersion
  import opened Secant
  import opened Ordering
  import opened Asymptotes

  /** guess = a_right - 0.01 */
  const SeedOffset: real := 0.01
  /** The fixed secant step 1e-4. */
  const Step: real := 0.0001

  /** The five lists the solver returns, in the source's return order. */
  datatype ModeLists = ModeLists(
    roots: seq<real>, cLs: seq<real>, lambdas: seq<real>,
    iterations: seq<nat>, errors: seq<seq<RelErr>>)

  /** Every boundary lies in [0, zeta_max], as the sweep's lists do. */
  ghost predicate InDomain(m: Math, asym: seq<real>)
  {
    forall i :: 0 <= i < |asym| ==> 0.0 <= asym[i] <= ZetaMax(m)
  }

  /** range(len(asymptotes) - 1) has this many brackets. */
  function BracketCount(asym: seq<real>): nat
  {
    if |asym| == 0 then 0 else |asym| - 1
  }

  /** The refiner's target: zeta -> dispersion_function(zeta, f). */
  function Target(m: Math, f: real): real -> Option<real>
  {
    z => DispersionFunction(m, z, f)
  }

  /** The refiner run of bracket k: seed a_right - 0.01, step 1e-4. */
  function Refine(m: Math, f: real, asym: seq<real>, k: nat): Trace
    requires k + 1 < |asym|
  {
    Run(asym[k + 1] - SeedOffset, Step, Target(m, f))
  }

  /** The refiner runs of all brackets, in bracket order. */
  function Refinements(m: Math, f: real, asym: seq<real>): (ts: seq<Trace>)
    ensures |ts| == BracketCount(asym)
  {
    seq(BracketCount(asym), k requires 0 <= k < BracketCount(asym) => Refine(m, f, asym, k))
  }

  /** The bracket test a_left < root < a_right for bracket k. */
  predicate InBracket(asym: seq<real>, k: nat, root: real)
    requires k + 1 < |asym|
  {
    asym[k] < root < asym[k + 1]
  }

  /** The run of bracket k ended strictly inside (a_left, a_right). */
  predicate Inside(asym: seq<real>, ts: seq<Trace>, k: nat)
    requires k < |ts| == BracketCount(asym)
  {
    InBracket(asym, k, ts[k].root)
  }

  ghost predicate Admissible(m: Math, f: real, asym: seq<real>)
  {
    f > 0.0 && Exact(m) && InDomain(m, asym)
  }

  /**
   * The loop body for bracket k with refiner run t: a root strictly inside
   * the bracket is appended with its cL, lambdaL, count and errors; otherwise
   * the lists stay as they are.
   */
  function Extend(m: Math, f: real, asym: seq<real>, k: nat, t: Trace, prev: ModeLists): ModeLists
    requires Admissible(m, f, asym) && k + 1 < |asym|
  {
    if InBracket(asym, k, t.root) then
      var c := PhaseVelocity(m, t.root);
      ModeLists(prev.roots + [t.root], prev.cLs + [c], prev.lambdas + [Wavelength(c, f)],
                prev.iterations + [t.iterations], prev.errors + [t.errors])
    else prev
  }

  /** The five lists after brackets 0 .. n - 1, given the runs ts of all brackets. */
  function SolveUpTo(m: Math, f: real, asym: seq<real>, ts: seq<Trace>, n: nat): ModeLists
    requires Admissible(m, f, asym) && |ts| == BracketCount(asym) && n <= |ts|
  {
    if n == 0 then ModeLists([], [], [], [], [])
    else Extend(m, f, asym, n - 1, ts[n - 1], SolveUpTo(m, f, asym, ts, n - 1))
  }

  /** The indices of the brackets among 0 .. n - 1 whose root was kept. */
  function BracketsUpTo(asym: seq<real>, ts: seq<Trace>, n: nat): seq<nat>
    requires |ts| == BracketCount(asym) && n <= |ts|
  {
    if n == 0 then []
    else BracketsUpTo(asym, ts, n - 1) + (if Inside(asym, ts, n - 1) then [n - 1] else [])
  }

  /** The lists solve_modes_by_bracketing returns. */
  function Solve(m: Math, f: real, asym: seq<real>): ModeLists
    requires Admissible(m, f, asym)
  {
    SolveUpTo(m, f, asym, Refinements(m, f, asym), BracketCount(asym))
  }

  /** The brackets that contribute an entry to Solve, in order. */
  function Brackets(m: Math, f: real, asym: seq<real>): seq<nat>
  {
    BracketsUpTo(asym, Refinements(m, f, asym), BracketCount(asym))
  }

  /** Bracket k contributes: its refined root lies strictly inside it. */
  predicate Accepted(m: Math, f: real, asym: seq<real>, k: nat)
    requires k + 1 < |asym|
  {
    InBracket(asym, k, Refine(m, f, asym, k).root)
  }

  /**
   * One kept entry of the lists: it comes from the run t of bracket k, its
   * root lies strictly inside that bracket, its count and error list are that
   * run's, and its cL and lambdaL are derived from the root.
   */
  ghost predicate Entry(m: Math, f: real, asym: seq<real>, t: Trace,
                        root: real, c: real, lambda: real, its: nat, errs: seq<RelErr>, k: nat)
    requires Admissible(m, f, asym)
  {
    k + 1 < |asym| &&
    root == t.root && its == t.iterations && errs == t.errors &&
    InBracket(asym, k, root) &&
    0.0 < root < ZetaMax(m) &&
    c == PhaseVelocity(m, root) && Beta1 < c < Beta2 &&
    lambda == Wavelength(c, f) && lambda * f == c
  }

  /** Entry i of the five lists is the kept entry of bracket b[i]. */
  ghost predicate Describes(m: Math, f: real, asym: seq<real>, ts: seq<Trace>, r: ModeLists, b: seq<nat>)
    requires Admissible(m, f, asym)
  {
    |r.roots| == |b| && |r.cLs| == |b| && |r.lambdas| == |b| &&
    |r.iterations| == |b| && |r.errors| == |b| &&
    forall i :: 0 <= i < |b| ==>
      (b[i] < |ts| &&
       Entry(m, f, asym, ts[b[i]], r.roots[i], r.cLs[i], r.lambdas[i], r.iterations[i], r.errors[i], b[i]))
  }

  /** The kept brackets are increasing and are exactly those whose run ended inside. */
  lemma {:induction false} BracketsUpToLaws(asym: seq<real>, ts: seq<Trace>, n: nat)
    requires |ts| == BracketCount(asym) && n <= |ts|
    ensures var b := BracketsUpTo(asym, ts, n);
      |b| <= n &&
      (forall i :: 0 <= i < |b| ==> b[i] < n) &&
      (forall i, j :: 0 <= i < j < |b| ==> b[i] < b[j]) &&
      forall k :: 0 <= k < n ==> (Inside(asym, ts, k) <==> k in b)
  {
    if n > 0 {
      BracketsUpToLaws(asym, ts, n - 1);
    }
  }

  lemma {:induction false} SolveUpToLaws(m: Math, f: real, asym: seq<real>, ts: seq<Trace>, n: nat)
    requires Admissible(m, f, asym) && |ts| == BracketCount(asym) && n <= |ts|
    ensures Describes(m, f, asym, ts, SolveUpTo(m, f, asym, ts, n), BracketsUpTo(asym, ts, n))
  {
    if n > 0 {
      SolveUpToLaws(m, f, asym, ts, n - 1);
      if Inside(asym, ts, n - 1) {
        var prev := SolveUpTo(m, f, asym, ts, n - 1);
        var pb := BracketsUpTo(asym, ts, n - 1);
        var r := SolveUpTo(m, f, asym, ts, n);
        var b := BracketsUpTo(asym, ts, n);
        assert b == pb + [n - 1];
        assert asym[n - 1] >= 0.0 && asym[n] <= ZetaMax(m);
        forall i | 0 <= i < |b|
          ensures b[i] < |ts| &&
            Entry(m, f, asym, ts[b[i]], r.roots[i], r.cLs[i], r.lambdas[i], r.iterations[i], r.errors[i], b[i])
        {
          if i < |pb| {
            assert r.roots[i] == prev.roots[i] && r.cLs[i] == prev.cLs[i];
            assert r.lambdas[i] == prev.lambdas[i] && r.iterations[i] == prev.iterations[i];
            assert r.errors[i] == prev.errors[i] && b[i] == pb[i];
          }
        }
      }
    }
  }

  /**
   * The laws of solve_modes_by_bracketing: five lists of one length, at most
   * one entry per bracket; entry i comes from the refiner run of bracket b[i]
   * with b increasing, and a bracket contributes exactly when its refined
   * root lies strictly inside it.
   */
  lemma SolveLaws(m: Math, f: real, asym: seq<real>)
    requires Admissible(m, f, asym)
    ensures var ts, b := Refinements(m, f, asym), Brackets(m, f, asym);
      Describes(m, f, asym, ts, Solve(m, f, asym), b) &&
      |b| <= BracketCount(asym) &&
      (forall i, j :: 0 <= i < j < |b| ==> b[i] < b[j]) &&
      (forall i :: 0 <= i < |b| ==> b[i] < |ts| && ts[b[i]] == Refine(m, f, asym, b[i])) &&
      forall k :: 0 <= k < BracketCount(asym) ==> (Accepted(m, f, asym, k) <==> k in b)
  {
    var ts := Refinements(m, f, asym);
    SolveUpToLaws(m, f, asym, ts, |ts|);
    BracketsUpToLaws(asym, ts, |ts|);
    forall k | 0 <= k < BracketCount(asym)
      ensures Accepted(m, f, asym, k) == Inside(asym, ts, k)
    {
      assert ts[k] == Refine(m, f, asym, k);
    }
  }

  /**
   * Every solved mode has its root in (0, zeta_max), a phase velocity strictly
   * between beta1 and beta2, and a wavelength that times f gives the velocity.
   */
  lemma SolveBounds(m: Math, f: real, asym: seq<real>)
    requires Admissible(m, f, asym)
    ensures var r := Solve(m, f, asym);
      |r.roots| == |r.cLs| == |r.lambdas| == |r.iterations| == |r.errors| <= BracketCount(asym) &&
      forall i :: 0 <= i < |r.roots| ==>
        0.0 < r.roots[i] < ZetaMax(m) && Beta1 < r.cLs[i] < Beta2 && r.lambdas[i] * f == r.cLs[i]
  {
    SolveLaws(m, f, asym);
    var ts, b, r := Refinements(m, f, asym), Brackets(m, f, asym), Solve(m, f, asym);
    forall i | 0 <= i < |r.roots|
      ensures 0.0 < r.roots[i] < ZetaMax(m) && Beta1 < r.cLs[i] < Beta2 && r.lambdas[i] * f == r.cLs[i]
    {
      assert Entry(m, f, asym, ts[b[i]], r.roots[i], r.cLs[i], r.lambdas[i], r.iterations[i], r.errors[i], b[i]);
    }
  }

  /** Roots come in bracket order, so increasing asymptotes give increasing roots. */
  lemma RootsIncreasing(m: Math, f: real, asym: seq<real>)
    requires Admissible(m, f, asym)
    requires StrictlyIncreasing(asym)
    ensures StrictlyIncreasing(Solve(m, f, asym).roots)
  {
    var ts := Refinements(m, f, asym);
    RootsIncreasingFor(m, f, asym, ts);
  }

  lemma RootsIncreasingFor(m: Math, f: real, asym: seq<real>, ts: seq<Trace>)
    requires Admissible(m, f, asym) && |ts| == BracketCount(asym)
    requires StrictlyIncreasing(asym)
    ensures StrictlyIncreasing(SolveUpTo(m, f, asym, ts, |ts|).roots)
  {
    var r := SolveUpTo(m, f, asym, ts, |ts|);
    var b := BracketsUpTo(asym, ts, |ts|);
    SolveUpToLaws(m, f, asym, ts, |ts|);
    BracketsUpToLaws(asym, ts, |ts|);
    forall i, j | 0 <= i < j < |r.roots|
      ensures r.roots[i] < r.roots[j]
    {
      assert Entry(m, f, asym, ts[b[i]], r.roots[i], r.cLs[i], r.lambdas[i], r.iterations[i], r.errors[i], b[i]);
      assert Entry(m, f, asym, ts[b[j]], r.roots[j], r.cLs[j], r.lambdas[j], r.iterations[j], r.errors[j], b[j]);
      assert b[i] < b[j];
      if b[i] + 1 < b[j] {
        assert asym[b[i] + 1] < asym[b[j]];
      }
    }
  }

  /** solve_modes_by_bracketing(f, asymptotes). */
  method SolveModesByBracketing(m: Math, f: real, asym: seq<real>)
    returns (roots: seq<real>, cLs: seq<real>, lambdas: seq<real>,
             iterations: seq<nat>, errors: seq<seq<RelErr>>)
    requires Admissible(m, f, asym)
    ensures ModeLists(roots, cLs, lambdas, iterations, errors) == Solve(m, f, asym)
    ensures |roots| == |cLs| == |lambdas| == |iterations| == |errors| <= BracketCount(asym)
    ensures forall i :: 0 <= i < |roots| ==> 0.0 < roots[i] < ZetaMax(m) && Beta1 < cLs[i] < Beta2
  {
    ghost var ts := Refinements(m, f, asym);
    roots, cLs, lambdas, iterations, errors := [], [], [], [], [];
    for k := 0 to BracketCount(asym)
      invariant ModeLists(roots, cLs, lambdas, iterations, errors) == SolveUpTo(m, f, asym, ts, k)
    {
      assert ts[k] == Refine(m, f, asym, k);
      roots, cLs, lambdas, iterations, errors := SolveBracket(m, f, asym, k, roots, cLs, lambdas, iterations, errors);
    }
    SolveBounds(m, f, asym);
  }

  /** The body of the bracket loop for bracket k. */
  method SolveBracket(m: Math, f: real, asym: seq<real>, k: nat,
                      roots: seq<real>, cLs: seq<real>, lambdas: seq<real>,
                      iterations: seq<nat>, errors: seq<seq<RelErr>>)
    returns (roots': seq<real>, cLs': seq<real>, lambdas': seq<real>,
             iterations': seq<nat>, errors': seq<seq<RelErr>>)
    requires Admissible(m, f, asym) && k + 1 < |asym|
    ensures ModeLists(roots', cLs', lambdas', iterations', errors') ==
      Extend(m, f, asym, k, Refine(m, f, asym, k), ModeLists(roots, cLs, lambdas, iterations, errors))
  {
    roots', cLs', lambdas', iterations', errors' := roots, cLs, lambdas, iterations, errors;
    var aLeft := asym[k];
    var aRight := asym[k + 1];
    var guess := aRight - SeedOffset;
    var root, iters, errs := RootSecantModified(guess, Step, Target(m, f));
    if aLeft < root < aRight {
      assert 0.0 <= aLeft && aRight <= ZetaMax(m);
      roots' := roots' + [root];
      var cL := PhaseVelocity(m, root);
      var lambdaL := Wavelength(cL, f);
      cLs' := cLs' + [cL];
      lambdas' := lambdas' + [lambdaL];
      errors' := errors' + [errs];
      iterations' := iterations' + [iters];
    }
  }
}
