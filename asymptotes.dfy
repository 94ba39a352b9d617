/**
 * The asymptote list that cuts (0, zeta_max) into root brackets
 * (examples/lab03.py, lines 106-107; the plotting loop builds the same list at
 * lines 59-61): 0.01, then the poles 0.25 (2k + 1) / f of tan(2 pi f zeta) for
 * k < 40 that lie below zeta_max, then zeta_max.
 */
module Asymptotes {
  import opened Ordering

  /** The comprehension ranges over k in range(40). */
  const PoleCap: nat := 40
  /** The left end of the first bracket, kept off the undefined point 0. */
  const FirstBoundary: real := 0.01

  /** The k-th pole of tan(2 pi f zeta): 0.25 (2k + 1) / f. */
  function Pole(f: real, k: nat): real
    requires f > 0.0
  {
    0.25 * (2 * k + 1) as real / f
  }

  /** The poles for k in range(40), before filtering. */
  function Candidates(f: real): (c: seq<real>)
    requires f > 0.0
    ensures |c| == PoleCap
  {
    seq(PoleCap, k requires 0 <= k < PoleCap => Pole(f, k))
  }

  /** [x for x in s if x < zetaMax] */
  function KeepBelow(s: seq<real>, zetaMax: real): (r: seq<real>)
    ensures |r| <= |s|
  {
    if |s| == 0 then []
    else (if s[0] < zetaMax then [s[0]] else []) + KeepBelow(s[1..], zetaMax)
  }

  /** The asymptote list for frequency f. */
  function AsymptoteList(f: real, zetaMax: real): (a: seq<real>)
    requires f > 0.0
    ensures 2 <= |a| <= PoleCap + 2 && a[0] == FirstBoundary && a[|a| - 1] == zetaMax
  {
    [FirstBoundary] + KeepBelow(Candidates(f), zetaMax) + [zetaMax]
  }

  lemma PoleIncreasing(f: real, j: nat, k: nat)
    requires f > 0.0 && j < k
    ensures 0.0 < Pole(f, j) < Pole(f, k)
  {
    DivStrict(0.25 * (2 * j + 1) as real, 0.25 * (2 * k + 1) as real, f);
    DivPositive(0.25 * (2 * j + 1) as real, f);
  }

  lemma DivStrict(a: real, b: real, f: real)
    requires a < b && 0.0 < f
    ensures a / f < b / f
  {
  }

  lemma DivPositive(a: real, f: real)
    requires 0.0 < a && 0.0 < f
    ensures 0.0 < a / f
  {
  }

  lemma CandidatesIncreasing(f: real)
    requires f > 0.0
    ensures StrictlyIncreasing(Candidates(f))
  {
    var c := Candidates(f);
    forall i, j | 0 <= i < j < |c|
      ensures c[i] < c[j]
    {
      PoleIncreasing(f, i, j);
    }
  }

  /** Once an entry of an increasing list reaches zetaMax, nothing from it on is kept. */
  lemma {:induction false} NoneKept(s: seq<real>, zetaMax: real)
    requires StrictlyIncreasing(s)
    requires |s| > 0 ==> s[0] >= zetaMax
    ensures KeepBelow(s, zetaMax) == []
  {
    if |s| > 0 {
      NoneKept(s[1..], zetaMax);
    }
  }

  /**
   * On an increasing list the filter keeps a prefix: exactly the entries
   * before the first one that reaches zetaMax.
   */
  lemma {:induction false} KeepBelowPrefix(s: seq<real>, zetaMax: real)
    requires StrictlyIncreasing(s)
    ensures var r := KeepBelow(s, zetaMax);
      |r| <= |s| && r == s[..|r|] &&
      (forall i :: 0 <= i < |r| ==> r[i] < zetaMax) &&
      (|r| < |s| ==> s[|r|] >= zetaMax)
  {
    if |s| > 0 {
      if s[0] < zetaMax {
        KeepBelowPrefix(s[1..], zetaMax);
        var r, rest := KeepBelow(s, zetaMax), KeepBelow(s[1..], zetaMax);
        assert r == [s[0]] + rest;
        assert r == s[..|r|];
      } else {
        NoneKept(s, zetaMax);
      }
    }
  }

  /**
   * The list starts at 0.01 and ends at zetaMax; entry i (0 < i < last) is the
   * pole 0.25 (2(i - 1) + 1) / f and lies below zetaMax; no pole with k < 40
   * below zetaMax is missing.
   */
  lemma AsymptoteShape(f: real, zetaMax: real)
    requires f > 0.0
    ensures var a := AsymptoteList(f, zetaMax);
      2 <= |a| <= PoleCap + 2 &&
      a[0] == FirstBoundary && a[|a| - 1] == zetaMax &&
      (forall i :: 0 < i < |a| - 1 ==> a[i] == Pole(f, i - 1) && a[i] < zetaMax) &&
      (forall k :: |a| - 2 <= k < PoleCap ==> Pole(f, k) >= zetaMax)
  {
    var c := Candidates(f);
    var p := KeepBelow(c, zetaMax);
    CandidatesIncreasing(f);
    KeepBelowPrefix(c, zetaMax);
    var a := AsymptoteList(f, zetaMax);
    assert a == [FirstBoundary] + p + [zetaMax];
    forall i | 0 < i < |a| - 1
      ensures a[i] == Pole(f, i - 1) && a[i] < zetaMax
    {
      assert a[i] == p[i - 1] == c[i - 1];
    }
    forall k | |a| - 2 < k < PoleCap
      ensures Pole(f, k) >= zetaMax
    {
      PoleIncreasing(f, |a| - 2, k);
    }
  }

  /**
   * For 0 < f < 25 the first pole lies above 0.01, so when zetaMax > 0.01 the
   * whole list is strictly increasing.
   */
  lemma AsymptotesIncreasing(f: real, zetaMax: real)
    requires 0.0 < f < 25.0
    requires FirstBoundary < zetaMax
    ensures StrictlyIncreasing(AsymptoteList(f, zetaMax))
  {
    AsymptoteShape(f, zetaMax);
    ShapeIncreasing(f, zetaMax, AsymptoteList(f, zetaMax));
  }

  lemma ShapeIncreasing(f: real, zetaMax: real, a: seq<real>)
    requires 0.0 < f < 25.0
    requires FirstBoundary < zetaMax
    requires 2 <= |a| && a[0] == FirstBoundary && a[|a| - 1] == zetaMax
    requires forall i :: 0 < i < |a| - 1 ==> a[i] == Pole(f, i - 1) && a[i] < zetaMax
    ensures StrictlyIncreasing(a)
  {
    assert FirstBoundary < Pole(f, 0) by {
      assert 0.01 * f < 0.25;
      assert Pole(f, 0) * f == 0.25;
    }
    forall i, j | 0 <= i < j < |a|
      ensures a[i] < a[j]
    {
      if 0 < i && j < |a| - 1 {
        PoleIncreasing(f, i - 1, j - 1);
      } else if i == 0 && 1 < j < |a| - 1 {
        PoleIncreasing(f, 0, j - 1);
      }
    }
  }

  /** With zetaMax > 0.01 and 0 < f < 25, every entry lies in [0.01, zetaMax]. */
  lemma AsymptotesWithin(f: real, zetaMax: real)
    requires 0.0 < f < 25.0
    requires FirstBoundary < zetaMax
    ensures forall i :: 0 <= i < |AsymptoteList(f, zetaMax)| ==>
      FirstBoundary <= AsymptoteList(f, zetaMax)[i] <= zetaMax
  {
    var a := AsymptoteList(f, zetaMax);
    AsymptotesIncreasing(f, zetaMax);
    AsymptoteShape(f, zetaMax);
    forall i | 0 <= i < |a|
      ensures FirstBoundary <= a[i] <= zetaMax
    {
      if 0 < i {
        assert a[0] < a[i];
      }
      if i < |a| - 1 {
        assert a[i] < a[|a| - 1];
      }
    }
  }
}
