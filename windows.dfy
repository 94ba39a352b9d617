/**
 * The time windows of the magnitude-frequency analysis (examples/driver.py,
 * lines 32-47): five contiguous windows over [0, 120] hours, each selecting
 * the events with start <= t < end, except the last, which also takes t = end.
 */
module Windows {
  /** A time window (start, end) in hours. */
  datatype Window = Window(start: real, end: real)

  /** The five analysis windows. */
  const Intervals: seq<Window> :=
    [Window(0.0, 34.0), Window(34.0, 45.0), Window(45.0, 71.0), Window(71.0, 96.0), Window(96.0, 120.0)]

  /** Window i holds t: half-open [start, end) except the last, which is closed. */
  predicate InWindow(ws: seq<Window>, i: nat, t: real)
    requires i < |ws|
  {
    ws[i].start <= t && (if i + 1 < |ws| then t < ws[i].end else t <= ws[i].end)
  }

  /** The boolean mask of window i over the event times. */
  function Mask(ws: seq<Window>, i: nat, times: seq<real>): (mask: seq<bool>)
    requires i < |ws|
    ensures |mask| == |times|
    ensures forall k :: 0 <= k < |times| ==> (mask[k] <==> InWindow(ws, i, times[k]))
  {
    seq(|times|, k requires 0 <= k < |times| => InWindow(ws, i, times[k]))
  }

  /**
   * magnitudes[mask]: the entries whose mask bit is set. It is empty exactly
   * when no bit is set, and holds each value as many times as selected
   * positions hold it.
   */
  function Compress(xs: seq<real>, mask: seq<bool>): (r: seq<real>)
    requires |xs| == |mask|
    ensures |r| <= |xs|
    ensures |r| == 0 <==> forall k :: 0 <= k < |mask| ==> !mask[k]
    ensures forall x :: x in r <==> exists k :: 0 <= k < |xs| && mask[k] && xs[k] == x
    ensures forall x :: multiset(r)[x] == |Hits(xs, mask, x)|
  {
    var r := if |xs| == 0 then []
      else (
        var last := |xs| - 1;
        var prefix := Compress(xs[..last], mask[..last]);
        CompressStep(xs, mask, prefix);
        if mask[last] then prefix + [xs[last]] else prefix);
    CountsGiveMembers(xs, mask, r);
    r
  }

  /** One more position keeps the emptiness and multiplicity laws of the selection. */
  lemma CompressStep(xs: seq<real>, mask: seq<bool>, r: seq<real>)
    requires |xs| == |mask| > 0
    requires var n := |xs| - 1;
      |r| <= n && (|r| == 0 <==> forall k :: 0 <= k < n ==> !mask[..n][k]) &&
      forall x :: multiset(r)[x] == |Hits(xs[..n], mask[..n], x)|
    ensures var n := |xs| - 1;
      var res := if mask[n] then r + [xs[n]] else r;
      |res| <= |xs| && (|res| == 0 <==> forall k :: 0 <= k < |mask| ==> !mask[k]) &&
      forall x :: multiset(res)[x] == |Hits(xs, mask, x)|
  {
    var n := |xs| - 1;
    assert forall k :: 0 <= k < n ==> mask[..n][k] == mask[k];
    HitsSnoc(xs, mask);
    var res := if mask[n] then r + [xs[n]] else r;
    assert forall x :: multiset(res)[x] == multiset(r)[x] + (if mask[n] && xs[n] == x then 1 else 0);
  }

  /** A selection with the right multiplicities holds exactly the selected values. */
  lemma CountsGiveMembers(xs: seq<real>, mask: seq<bool>, r: seq<real>)
    requires |xs| == |mask|
    requires forall x :: multiset(r)[x] == |Hits(xs, mask, x)|
    ensures forall x :: x in r <==> exists k :: 0 <= k < |xs| && mask[k] && xs[k] == x
  {
    HitsMembers(xs, mask);
    assert forall x :: x in r <==> multiset(r)[x] > 0;
  }

  /** The selected positions that hold x. */
  ghost function Hits(xs: seq<real>, mask: seq<bool>, x: real): set<nat>
    requires |xs| == |mask|
  {
    set k: nat | k < |xs| && mask[k] && xs[k] == x
  }

  /** A value has hits exactly when some selected position holds it. */
  lemma HitsMembers(xs: seq<real>, mask: seq<bool>)
    requires |xs| == |mask|
    ensures forall x :: |Hits(xs, mask, x)| > 0 <==> exists k :: 0 <= k < |xs| && mask[k] && xs[k] == x
  {
    forall x
      ensures |Hits(xs, mask, x)| > 0 <==> exists k :: 0 <= k < |xs| && mask[k] && xs[k] == x
    {
      if exists k :: 0 <= k < |xs| && mask[k] && xs[k] == x {
        var k :| 0 <= k < |xs| && mask[k] && xs[k] == x;
        assert k in Hits(xs, mask, x);
      } else {
        assert Hits(xs, mask, x) == {};
      }
    }
  }

  /** Taking one more position adds it to the hits of the value it holds, if selected. */
  lemma HitsSnoc(xs: seq<real>, mask: seq<bool>)
    requires |xs| == |mask| > 0
    ensures var n := |xs| - 1;
      forall x :: |Hits(xs, mask, x)| ==
        |Hits(xs[..n], mask[..n], x)| + (if mask[n] && xs[n] == x then 1 else 0)
  {
    var n := |xs| - 1;
    forall x
      ensures |Hits(xs, mask, x)| == |Hits(xs[..n], mask[..n], x)| + (if mask[n] && xs[n] == x then 1 else 0)
    {
      var before := Hits(xs[..n], mask[..n], x);
      if mask[n] && xs[n] == x {
        assert Hits(xs, mask, x) == before + {n};
        assert n !in before;
      } else {
        assert Hits(xs, mask, x) == before;
      }
    }
  }

  /** Consecutive windows share their boundary and none is reversed. */
  ghost predicate Tiles(ws: seq<Window>)
  {
    |ws| > 0 &&
    (forall i :: 0 <= i < |ws| ==> ws[i].start <= ws[i].end) &&
    (forall i :: 0 <= i < |ws| - 1 ==> ws[i].end == ws[i + 1].start)
  }

  lemma {:induction false} EndBeforeStart(ws: seq<Window>, i: nat, j: nat)
    requires Tiles(ws) && i < j < |ws|
    ensures ws[i].end <= ws[j].start
    decreases j - i
  {
    if i + 1 < j {
      EndBeforeStart(ws, i + 1, j);
    }
  }

  /** Some window holds t exactly when t lies in [first start, last end]. */
  lemma Covered(ws: seq<Window>, t: real)
    requires Tiles(ws)
    ensures (exists i :: 0 <= i < |ws| && InWindow(ws, i, t)) <==> ws[0].start <= t <= ws[|ws| - 1].end
  {
    if exists i :: 0 <= i < |ws| && InWindow(ws, i, t) {
      var i :| 0 <= i < |ws| && InWindow(ws, i, t);
      Inside(ws, i, t);
    } else if ws[0].start <= t <= ws[|ws| - 1].end {
      CoveredFrom(ws, t);
    }
  }

  /** Every time of [first start, last end] lies in some window. */
  lemma {:induction false} CoveredFrom(ws: seq<Window>, t: real)
    requires Tiles(ws)
    requires ws[0].start <= t <= ws[|ws| - 1].end
    ensures exists i :: 0 <= i < |ws| && InWindow(ws, i, t)
  {
    if !InWindow(ws, 0, t) {
      var rest := ws[1..];
      assert Tiles(rest) by {
        assert forall i :: 0 <= i < |rest| ==> rest[i] == ws[i + 1];
      }
      CoveredFrom(rest, t);
      var i :| 0 <= i < |rest| && InWindow(rest, i, t);
      assert InWindow(ws, i + 1, t);
    }
  }

  /** No time lies in two windows. */
  lemma AtMostOne(ws: seq<Window>, i: nat, j: nat, t: real)
    requires Tiles(ws) && i < |ws| && j < |ws|
    requires InWindow(ws, i, t) && InWindow(ws, j, t)
    ensures i == j
  {
    if i < j {
      EndBeforeStart(ws, i, j);
    } else if j < i {
      EndBeforeStart(ws, j, i);
    }
  }

  /** A time in some window lies in [first start, last end]. */
  lemma Inside(ws: seq<Window>, i: nat, t: real)
    requires Tiles(ws) && i < |ws| && InWindow(ws, i, t)
    ensures ws[0].start <= t <= ws[|ws| - 1].end
  {
    if 0 < i {
      EndBeforeStart(ws, 0, i);
    }
    if i < |ws| - 1 {
      EndBeforeStart(ws, i, |ws| - 1);
    }
  }

  /**
   * The five windows partition [0, 120]: a time lies in some window exactly
   * when 0 <= t <= 120, and then in exactly one.
   */
  lemma IntervalsPartition(t: real)
    ensures (exists i :: 0 <= i < |Intervals| && InWindow(Intervals, i, t)) <==> 0.0 <= t <= 120.0
    ensures forall i, j ::
      0 <= i < |Intervals| && 0 <= j < |Intervals| && InWindow(Intervals, i, t) && InWindow(Intervals, j, t)
      ==> i == j
  {
    assert Tiles(Intervals);
    if 0.0 <= t <= 120.0 {
      Covered(Intervals, t);
    }
    forall i | 0 <= i < |Intervals| && InWindow(Intervals, i, t)
      ensures 0.0 <= t <= 120.0
    {
      Inside(Intervals, i, t);
    }
    forall i, j | 0 <= i < |Intervals| && 0 <= j < |Intervals| &&
      InWindow(Intervals, i, t) && InWindow(Intervals, j, t)
      ensures i == j
    {
      AtMostOne(Intervals, i, j, t);
    }
  }
}
