/**
 * The cumulative magnitude counts of one window (examples/driver.py, lines
 * 52-53): the distinct magnitudes in increasing order with their number of
 * occurrences (np.unique with return_counts), and the counts summed from the
 * right (a cumulative sum of the reversed counts, reversed back), which gives
 * for each distinct magnitude M the number N of events with magnitude >= M.
 */
module MagnitudeCounts {
  import opened Ordering

  /** The number of occurrences of v in xs. */
  function Count(xs: seq<real>, v: real): nat
  {
    if |xs| == 0 then 0 else (if xs[0] == v then 1 else 0) + Count(xs[1..], v)
  }

  /** The number of entries of xs that are >= v. */
  function CountAtLeast(xs: seq<real>, v: real): nat
  {
    if |xs| == 0 then 0 else (if xs[0] >= v then 1 else 0) + CountAtLeast(xs[1..], v)
  }

  /** Insert x into an increasing list without repeating it. */
  function Insert(u: seq<real>, x: real): (r: seq<real>)
    requires StrictlyIncreasing(u)
    ensures StrictlyIncreasing(r)
    ensures forall y :: y in r <==> y in u || y == x
  {
    if |u| == 0 then [x]
    else if x < u[0] then [x] + u
    else if x == u[0] then u
    else
      var rest := Insert(u[1..], x);
      assert forall y :: y in u <==> y == u[0] || y in u[1..];
      assert forall k :: 0 <= k < |rest| ==> rest[k] in rest;
      [u[0]] + rest
  }

  /** np.unique: the distinct values of xs in increasing order. */
  function Unique(xs: seq<real>): (u: seq<real>)
    ensures StrictlyIncreasing(u)
    ensures forall y :: y in u <==> y in xs
  {
    if |xs| == 0 then []
    else
      var u := Insert(Unique(xs[..|xs| - 1]), xs[|xs| - 1]);
      assert xs == xs[..|xs| - 1] + [xs[|xs| - 1]];
      u
  }

  /** Two increasing lists with the same values are equal, so Unique is determined by its contract. */
  lemma {:induction false} IncreasingUnique(u: seq<real>, v: seq<real>)
    requires StrictlyIncreasing(u) && StrictlyIncreasing(v)
    requires forall y :: y in u <==> y in v
    ensures u == v
  {
    if |u| > 0 {
      assert u[0] in u;
    }
    if |v| > 0 {
      assert v[0] in v;
    }
    if |u| > 0 && |v| > 0 {
      assert u[0] in v && v[0] in u;
      assert u[0] == v[0];
      forall y
        ensures y in u[1..] <==> y in v[1..]
      {
        if y in u[1..] {
          assert y in v && y != v[0];
        }
        if y in v[1..] {
          assert y in u && y != u[0];
        }
      }
      IncreasingUnique(u[1..], v[1..]);
      assert u == [u[0]] + u[1..] && v == [v[0]] + v[1..];
    }
  }

  /** The counts np.unique returns beside the distinct values u. */
  function Counts(xs: seq<real>, u: seq<real>): (c: seq<int>)
    ensures |c| == |u|
  {
    seq(|u|, i requires 0 <= i < |u| => Count(xs, u[i]))
  }

  function Sum(s: seq<int>): int
  {
    if |s| == 0 then 0 else s[0] + Sum(s[1..])
  }

  /** s[::-1] */
  function Reverse(s: seq<int>): (r: seq<int>)
    ensures |r| == |s|
  {
    seq(|s|, k requires 0 <= k < |s| => s[|s| - 1 - k])
  }

  /** np.cumsum: entry k is the sum of s[0..k]. */
  function Cumsum(s: seq<int>): (r: seq<int>)
    ensures |r| == |s|
  {
    seq(|s|, k requires 0 <= k < |s| => Sum(s[..k + 1]))
  }

  /** np.cumsum(counts[::-1])[::-1] over the counts of np.unique(xs). */
  function CumulativeCounts(xs: seq<real>): (cum: seq<int>)
    ensures |cum| == |Unique(xs)|
  {
    Reverse(Cumsum(Reverse(Counts(xs, Unique(xs)))))
  }

  lemma {:induction false} SumAppend(a: seq<int>, b: seq<int>)
    ensures Sum(a + b) == Sum(a) + Sum(b)
  {
    if |a| > 0 {
      assert (a + b)[1..] == a[1..] + b;
      SumAppend(a[1..], b);
    } else {
      assert a + b == b;
    }
  }

  lemma {:induction false} SumReverse(s: seq<int>)
    ensures Sum(Reverse(s)) == Sum(s)
  {
    if |s| > 0 {
      var r := Reverse(s);
      assert r == Reverse(s[1..]) + [s[0]];
      SumAppend(Reverse(s[1..]), [s[0]]);
      SumReverse(s[1..]);
    }
  }

  /** The reversed cumulative sum of the reversed list is the list of suffix sums. */
  lemma SuffixSums(c: seq<int>, i: nat)
    requires i < |c|
    ensures Reverse(Cumsum(Reverse(c)))[i] == Sum(c[i..])
  {
    var n := |c|;
    assert Reverse(Cumsum(Reverse(c)))[i] == Sum(Reverse(c)[..n - i]);
    assert Reverse(c)[..n - i] == Reverse(c[i..]);
    SumReverse(c[i..]);
  }

  lemma {:induction false} CountAtLeastSplit(xs: seq<real>, a: real, b: real)
    requires a < b
    requires forall k :: 0 <= k < |xs| ==> !(a < xs[k] < b)
    ensures CountAtLeast(xs, a) == Count(xs, a) + CountAtLeast(xs, b)
  {
    if |xs| > 0 {
      CountAtLeastSplit(xs[1..], a, b);
    }
  }

  lemma {:induction false} CountAtLeastTop(xs: seq<real>, a: real)
    requires forall k :: 0 <= k < |xs| ==> xs[k] <= a
    ensures CountAtLeast(xs, a) == Count(xs, a)
  {
    if |xs| > 0 {
      CountAtLeastTop(xs[1..], a);
    }
  }

  lemma {:induction false} CountAtLeastAll(xs: seq<real>, a: real)
    requires forall k :: 0 <= k < |xs| ==> xs[k] >= a
    ensures CountAtLeast(xs, a) == |xs|
  {
    if |xs| > 0 {
      CountAtLeastAll(xs[1..], a);
    }
  }

  lemma {:induction false} CountPositive(xs: seq<real>, v: real)
    requires v in xs
    ensures Count(xs, v) >= 1
  {
    if xs[0] != v {
      CountPositive(xs[1..], v);
    }
  }

  /**
   * For increasing distinct values u covering xs, the counts of u[i..] add up
   * to the number of entries >= u[i].
   */
  lemma {:induction false} SuffixCountsAtLeast(xs: seq<real>, u: seq<real>, i: nat)
    requires StrictlyIncreasing(u) && i < |u|
    requires forall k :: 0 <= k < |xs| ==> xs[k] in u
    ensures Sum(Counts(xs, u)[i..]) == CountAtLeast(xs, u[i])
    decreases |u| - i
  {
    var c := Counts(xs, u);
    assert c[i..] == [c[i]] + c[i + 1..];
    if i == |u| - 1 {
      assert c[i + 1..] == [];
      CountAtLeastTop(xs, u[i]);
    } else {
      SuffixCountsAtLeast(xs, u, i + 1);
      CountAtLeastSplit(xs, u[i], u[i + 1]);
    }
  }

  /**
   * The laws of the cumulative counts: one per distinct magnitude; entry i is
   * the number of entries >= the i-th distinct magnitude; they never increase;
   * the first one is the number of entries; every one is at least 1.
   */
  lemma CumulativeCountsLaws(xs: seq<real>)
    ensures var u, cum := Unique(xs), CumulativeCounts(xs);
      |cum| == |u| &&
      (forall i :: 0 <= i < |u| ==> cum[i] == CountAtLeast(xs, u[i]) >= 1) &&
      (forall i, j :: 0 <= i < j < |u| ==> cum[i] >= cum[j]) &&
      (|xs| > 0 ==> |u| > 0 && cum[0] == |xs|)
  {
    var u, cum := Unique(xs), CumulativeCounts(xs);
    var c := Counts(xs, u);
    forall i | 0 <= i < |u|
      ensures cum[i] == CountAtLeast(xs, u[i]) >= 1
    {
      SuffixSums(c, i);
      SuffixCountsAtLeast(xs, u, i);
      CountPositive(xs, u[i]);
      AtLeastCount(xs, u[i]);
    }
    forall i, j | 0 <= i < j < |u|
      ensures cum[i] >= cum[j]
    {
      AtLeastAntitone(xs, u[i], u[j]);
    }
    if |xs| > 0 {
      assert xs[0] in u;
      forall k | 0 <= k < |xs|
        ensures xs[k] >= u[0]
      {
        assert xs[k] in u;
      }
      CountAtLeastAll(xs, u[0]);
    }
  }

  /** Appending x adds one to the count of entries >= v exactly when x >= v. */
  lemma {:induction false} CountAtLeastAppend(xs: seq<real>, x: real, v: real)
    ensures CountAtLeast(xs + [x], v) == CountAtLeast(xs, v) + (if x >= v then 1 else 0)
  {
    if |xs| > 0 {
      assert (xs + [x])[1..] == xs[1..] + [x];
      CountAtLeastAppend(xs[1..], x, v);
    }
  }

  lemma {:induction false} AtLeastCount(xs: seq<real>, v: real)
    ensures CountAtLeast(xs, v) >= Count(xs, v)
  {
    if |xs| > 0 {
      AtLeastCount(xs[1..], v);
    }
  }

  lemma {:induction false} AtLeastAntitone(xs: seq<real>, a: real, b: real)
    requires a <= b
    ensures CountAtLeast(xs, a) >= CountAtLeast(xs, b)
  {
    if |xs| > 0 {
      AtLeastAntitone(xs[1..], a, b);
    }
  }
}
