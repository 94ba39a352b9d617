/**
 * The modified-secant root refiner root_secant_modified
 * (examples/lab03.py, lines 18-19 and 28-41).
 *
 * `Run` is the specification: it unrolls the iteration and records, next to
 * the triple the source returns, why the loop stopped and the list of iterates.
 * `RootSecantModified` is the loop itself, proved to return what `Run` does;
 * `RunLaws` states the bookkeeping every run obeys.
 */
module Secant {
  import opened Wrappers

  /** eps, the relative-error tolerance. */
  const Eps: real := 0.000001
  /** max_iter, the iteration cap. */
  const MaxIter: nat := 100

  /** A relative error: |x1 - x0| / |x1|, or infinity when x1 is zero. */
  datatype RelErr = Finite(value: real) | Infinite

  /** err < eps; infinity never is. */
  predicate Below(e: RelErr)
  {
    e.Finite? && e.value < Eps
  }

  function Abs(x: real): (r: real)
    ensures 0.0 <= r && (r == x || r == -x)
  {
    if x < 0.0 then -x else x
  }

  /** The outcome of one loop body: stop, or the next iterate and its error. */
  datatype Step = Halt | Next(x1: real, err: RelErr)

  /**
   * One iteration from x0: halt when f(x0) or f(x0 + dx) is undefined or their
   * difference is zero; otherwise the secant update with the fixed step dx.
   */
  function SecantStep(x0: real, dx: real, f: real -> Option<real>): (s: Step)
    ensures s.Halt? <==> f(x0).None? || f(x0 + dx).None? || f(x0 + dx).value == f(x0).value
    ensures s.Next? ==> (s.err.Infinite? <==> s.x1 == 0.0)
  {
    var fx := f(x0);
    var fxdx := f(x0 + dx);
    if fx.None? || fxdx.None? || fxdx.value - fx.value == 0.0 then Halt
    else
      var x1 := Update(x0, dx, fx.value, fxdx.value);
      Next(x1, ErrorOf(x0, x1))
  }

  /** x1 = x0 - f(x0) dx / (f(x0 + dx) - f(x0)): the secant through x0 and x0 + dx meets zero at x1. */
  function Update(x0: real, dx: real, fx: real, fxdx: real): (x1: real)
    requires fxdx != fx
    ensures (x1 - x0) * (fxdx - fx) == -(fx * dx)
  {
    var q := fx * dx / (fxdx - fx);
    assert q * (fxdx - fx) == fx * dx;
    x0 - q
  }

  /** The relative error of the step from x0 to x1; infinite when x1 is zero. */
  function ErrorOf(x0: real, x1: real): (e: RelErr)
    ensures e.Infinite? <==> x1 == 0.0
    ensures e.Finite? ==> 0.0 <= e.value && e.value * Abs(x1) == Abs(x1 - x0)
  {
    if x1 != 0.0 then Finite(RelativeChange(x0, x1)) else Infinite
  }

  function RelativeChange(x0: real, x1: real): (e: real)
    requires x1 != 0.0
    ensures 0.0 <= e && e * Abs(x1) == Abs(x1 - x0)
  {
    DivAbs(x1 - x0, x1);
    Abs((x1 - x0) / x1)
  }

  lemma DivAbs(a: real, b: real)
    requires b != 0.0
    ensures Abs(a / b) * Abs(b) == Abs(a)
  {
    assert (a / b) * b == a;
    if a / b < 0.0 {
      if b < 0.0 {
        assert Abs(a / b) * Abs(b) == (a / b) * b;
      } else {
        assert Abs(a / b) * Abs(b) == -((a / b) * b);
      }
    } else {
      if b < 0.0 {
        assert Abs(a / b) * Abs(b) == -((a / b) * b);
      } else {
        assert Abs(a / b) * Abs(b) == (a / b) * b;
      }
    }
  }

  /** Why the loop ended: an error below eps, a break, or the cap. */
  datatype Stop = Converged | Broke | Exhausted

  /**
   * A run of the refiner: the triple the source returns (root, iterations,
   * errors), why it stopped, and the iterates x0, x1, ... it visited.
   */
  datatype Trace = Trace(stop: Stop, root: real, iterations: nat, errors: seq<RelErr>, iterates: seq<real>)

  /**
   * The iteration continued with the iterates xs and errors errs so far; the
   * loop index is the number of errors.
   */
  function RunFrom(dx: real, f: real -> Option<real>, xs: seq<real>, errs: seq<RelErr>): Trace
    requires |errs| <= MaxIter && |xs| > 0
    decreases MaxIter - |errs|
  {
    var x0 := xs[|xs| - 1];
    if |errs| == MaxIter then Trace(Exhausted, x0, MaxIter, errs, xs)
    else
      match SecantStep(x0, dx, f)
      case Halt => Trace(Broke, x0, MaxIter, errs, xs)
      case Next(x1, e) =>
        if Below(e) then Trace(Converged, x1, |errs| + 1, errs + [e], xs + [x1])
        else RunFrom(dx, f, xs + [x1], errs + [e])
  }

  /** The whole run from the seed x0. */
  function Run(x0: real, dx: real, f: real -> Option<real>): Trace
  {
    RunFrom(dx, f, [x0], [])
  }

  /** The iterates xs and errors errs are a correct history of k loop bodies from xs[0]. */
  ghost predicate History(dx: real, f: real -> Option<real>, xs: seq<real>, errs: seq<RelErr>)
  {
    |xs| == |errs| + 1 &&
    forall k :: 0 <= k < |errs| ==> SecantStep(xs[k], dx, f) == Next(xs[k + 1], errs[k])
  }

  /** Every error of the list but (possibly) the last is at least eps. */
  ghost predicate NoneBelowBeforeLast(errs: seq<RelErr>)
  {
    forall k :: 0 <= k < |errs| - 1 ==> !Below(errs[k])
  }

  /** The laws every run obeys, whatever dx and f are. */
  ghost predicate Lawful(x0: real, dx: real, f: real -> Option<real>, t: Trace)
  {
    // never more than max_iter loop bodies
    t.iterations <= MaxIter && |t.errors| <= MaxIter &&
    // the iterates start at the seed and each error belongs to one secant step
    |t.iterates| > 0 && t.iterates[0] == x0 && History(dx, f, t.iterates, t.errors) &&
    // the returned value is the last iterate
    t.root == t.iterates[|t.iterates| - 1] &&
    NoneBelowBeforeLast(t.errors) &&
    (t.stop == Converged ==>
       |t.errors| > 0 && Below(t.errors[|t.errors| - 1]) && t.iterations == |t.errors|) &&
    (t.stop != Converged ==>
       t.iterations == MaxIter && forall k :: 0 <= k < |t.errors| ==> !Below(t.errors[k])) &&
    (t.stop == Broke ==> |t.errors| < MaxIter && SecantStep(t.root, dx, f).Halt?) &&
    (t.stop == Exhausted ==> |t.errors| == MaxIter)
  }

  lemma {:induction false} RunFromLaws(x0: real, dx: real, f: real -> Option<real>, xs: seq<real>, errs: seq<RelErr>)
    requires |errs| <= MaxIter && History(dx, f, xs, errs) && xs[0] == x0
    requires forall k :: 0 <= k < |errs| ==> !Below(errs[k])
    ensures Lawful(x0, dx, f, RunFrom(dx, f, xs, errs))
    decreases MaxIter - |errs|
  {
    var x0' := xs[|xs| - 1];
    if |errs| < MaxIter {
      match SecantStep(x0', dx, f)
      case Halt =>
      case Next(x1, e) =>
        var xs', errs' := xs + [x1], errs + [e];
        assert History(dx, f, xs', errs') by {
          forall k | 0 <= k < |errs'|
            ensures SecantStep(xs'[k], dx, f) == Next(xs'[k + 1], errs'[k])
          {
            if k < |errs| {
              assert xs'[k] == xs[k] && xs'[k + 1] == xs[k + 1];
            }
          }
        }
        if !Below(e) {
          RunFromLaws(x0, dx, f, xs', errs');
        }
    }
  }

  /**
   * The laws of root_secant_modified: it performs at most max_iter iterations;
   * on convergence the last error is below eps, the result is that iteration's
   * x1 and the count equals the number of errors; otherwise (a break or the
   * cap) it returns the current x0 and reports max_iter; every error before
   * the last is at least eps.
   */
  lemma RunLaws(x0: real, dx: real, f: real -> Option<real>)
    ensures Lawful(x0, dx, f, Run(x0, dx, f))
  {
    RunFromLaws(x0, dx, f, [x0], []);
  }

  /**
   * What the caller sees of a run: at most max_iter iterations and errors, and
   * a count below max_iter means convergence with that many errors, the last
   * one below eps.
   */
  lemma RunCounts(x0: real, dx: real, f: real -> Option<real>)
    ensures var t := Run(x0, dx, f);
      t.iterations <= MaxIter && |t.errors| <= MaxIter &&
      (t.iterations < MaxIter ==> t.iterations == |t.errors| > 0 && Below(t.errors[|t.errors| - 1]))
  {
    RunLaws(x0, dx, f);
  }

  /** A count below max_iter can only come from the convergence branch. */
  lemma ShortCountMeansConverged(x0: real, dx: real, f: real -> Option<real>)
    ensures Run(x0, dx, f).iterations < MaxIter ==> Run(x0, dx, f).stop == Converged
  {
    RunLaws(x0, dx, f);
  }

  /** One unrolling of the run: what the next loop body does to the result. */
  lemma RunFromNext(dx: real, f: real -> Option<real>, xs: seq<real>, errs: seq<RelErr>)
    requires |errs| < MaxIter && |xs| > 0
    ensures var x0, s := xs[|xs| - 1], SecantStep(xs[|xs| - 1], dx, f);
      (s.Halt? ==> RunFrom(dx, f, xs, errs) == Trace(Broke, x0, MaxIter, errs, xs)) &&
      (s.Next? && Below(s.err) ==>
         RunFrom(dx, f, xs, errs) == Trace(Converged, s.x1, |errs| + 1, errs + [s.err], xs + [s.x1])) &&
      (s.Next? && !Below(s.err) ==>
         RunFrom(dx, f, xs, errs) == RunFrom(dx, f, xs + [s.x1], errs + [s.err]))
  {
  }

  /**
   * The computation of one loop body from x0: whether it breaks, and
   * otherwise the next iterate x1 and its relative error.
   */
  method SecantIteration(x0: real, dx: real, f: real -> Option<real>)
    returns (halt: bool, x1: real, err: RelErr)
    ensures halt <==> SecantStep(x0, dx, f).Halt?
    ensures !halt ==> SecantStep(x0, dx, f) == Next(x1, err)
  {
    var fx := f(x0);
    var fxdx := f(x0 + dx);
    if fx.None? || fxdx.None? || fxdx.value - fx.value == 0.0 {
      return true, x0, Infinite;
    }
    x1 := Update(x0, dx, fx.value, fxdx.value);
    err := ErrorOf(x0, x1);
    halt := false;
  }

  /** root_secant_modified(x0, dx, f), returning (root, iterations, errors). */
  method RootSecantModified(x0: real, dx: real, f: real -> Option<real>)
    returns (root: real, iterations: nat, errors: seq<RelErr>)
    ensures var t := Run(x0, dx, f);
      root == t.root && iterations == t.iterations && errors == t.errors
    ensures iterations <= MaxIter && |errors| <= MaxIter
    ensures iterations < MaxIter ==> iterations == |errors| > 0 && Below(errors[|errors| - 1])
  {
    RunCounts(x0, dx, f);
    var x := x0;
    errors := [];
    ghost var xs := [x0];
    for i := 0 to MaxIter
      invariant |xs| == i + 1 && xs[i] == x && |errors| == i
      invariant RunFrom(dx, f, xs, errors) == Run(x0, dx, f)
    {
      RunFromNext(dx, f, xs, errors);
      var halt, x1, err := SecantIteration(x, dx, f);
      if halt {
        return x, MaxIter, errors;
      }
      errors := errors + [err];
      if Below(err) {
        return x1, i + 1, errors;
      }
      x := x1;
      xs := xs + [x1];
    }
    return x, MaxIter, errors;
  }
}
