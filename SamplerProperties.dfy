/**
 Properties of the unique random sampler that relate several draws or several
 calls: how the array grows, the order of its elements, how long it can get,
 and for which requested lengths the loop can ever return.
 */
module SamplerProperties {
  import opened RandManager

  /** One loop iteration either leaves the array as it was (the drawn value is
      already in it) or appends the drawn value at the end. */
  lemma CollectedGrowsByAppending(vs: seq<int>, k: nat)
    requires k < |vs|
    ensures vs[k] in vs[..k] ==> Collected(vs, k + 1) == Collected(vs, k)
    ensures vs[k] !in vs[..k] ==> Collected(vs, k + 1) == Collected(vs, k) + [vs[k]]
  {
    CollectedMembers(vs, k);
  }

  /** The array after `j` draws is a prefix of the array after any later
      number of draws: nothing is ever removed or reordered. */
  lemma {:induction false} CollectedPrefix(vs: seq<int>, j: nat, k: nat)
    requires j <= k <= |vs|
    ensures |Collected(vs, j)| <= |Collected(vs, k)|
    ensures Collected(vs, k)[..|Collected(vs, j)|] == Collected(vs, j)
    decreases k - j
  {
    if j < k {
      CollectedPrefix(vs, j, k - 1);
      var before := Collected(vs, k - 1);
      assert Collected(vs, k) == before || Collected(vs, k) == before + [vs[k - 1]];
      assert Collected(vs, k)[..|before|] == before;
    }
  }

  /** A value occurring in the first `m` elements has its first occurrence
      below `m`. */
  lemma IndexOfBelow(vs: seq<int>, m: nat, x: int)
    requires m <= |vs| && x in vs[..m]
    ensures 0 <= IndexOf(vs, x) < m
  {
  }

  /** The array lists values in the order in which they were first drawn. */
  lemma {:induction false} CollectedInFirstDrawOrder(vs: seq<int>, k: nat, i: nat, j: nat)
    requires k <= |vs|
    requires i < j < |Collected(vs, k)|
    ensures 0 <= IndexOf(vs, Collected(vs, k)[i]) < IndexOf(vs, Collected(vs, k)[j]) < k
  {
    var before := Collected(vs, k - 1);
    var v := vs[k - 1];
    CollectedMembers(vs, k - 1);
    if v in before {
      CollectedInFirstDrawOrder(vs, k - 1, i, j);
    } else if j < |before| {
      CollectedInFirstDrawOrder(vs, k - 1, i, j);
    } else {
      assert Collected(vs, k)[j] == v && Collected(vs, k)[i] == before[i];
      IndexOfBelow(vs, k - 1, before[i]);
      IndexOfBelow(vs, k, v);
    }
  }

  /** Drawing values that are all different keeps every one of them. */
  lemma {:induction false} CollectedOfDistinct(vs: seq<int>, k: nat)
    requires k <= |vs| && NoDuplicates(vs)
    ensures Collected(vs, k) == vs[..k]
  {
    if k > 0 {
      CollectedOfDistinct(vs, k - 1);
      assert vs[..k] == vs[..k - 1] + [vs[k - 1]];
    }
  }

  /** The array after `k` draws depends only on the first `k` drawn values. */
  lemma {:induction false} CollectedSamePrefix(vs: seq<int>, m: nat, k: nat)
    requires k <= m <= |vs|
    ensures Collected(vs[..m], k) == Collected(vs, k)
  {
    if k > 0 {
      CollectedSamePrefix(vs, m, k - 1);
      assert vs[..m][k - 1] == vs[k - 1];
    }
  }

  /** The integers from `lo` to `hi`, both included. */
  function Span(lo: int, hi: int): (r: set<int>)
    ensures forall x :: x in r <==> lo <= x <= hi
    decreases hi - lo
  {
    if lo > hi then {} else Span(lo, hi - 1) + {hi}
  }

  function Elements(s: seq<int>): set<int> {
    set x | x in s
  }

  lemma {:induction false} SpanSize(lo: int, hi: int)
    requires lo <= hi + 1
    ensures |Span(lo, hi)| == hi - lo + 1
    decreases hi - lo
  {
    if lo <= hi {
      SpanSize(lo, hi - 1);
    }
  }

  lemma {:induction false} ElementsOfDistinct(s: seq<int>)
    requires NoDuplicates(s)
    ensures |Elements(s)| == |s|
  {
    if s != [] {
      var init := s[..|s| - 1];
      ElementsOfDistinct(init);
      assert Elements(s) == Elements(init) + {s[|s| - 1]};
    }
  }

  lemma SubsetSize(a: set<int>, b: set<int>)
    requires a <= b
    ensures |a| <= |b|
    ensures |a| == |b| ==> a == b
  {
    assert b == a + (b - a);
    assert a * (b - a) == {};
    if |a| == |b| {
      assert |b - a| == 0;
    }
  }

  /** Pigeonhole: a duplicate-free array of values from [lo, hi] has at most
      hi - lo + 1 elements, and exactly that many only when it holds every one
      of them. */
  lemma DistinctWithinSpan(s: seq<int>, lo: int, hi: int)
    requires lo <= hi + 1
    requires NoDuplicates(s)
    requires forall x :: x in s ==> lo <= x <= hi
    ensures |s| <= hi - lo + 1
    ensures |s| == hi - lo + 1 ==> forall x :: lo <= x <= hi ==> x in s
  {
    ElementsOfDistinct(s);
    SpanSize(lo, hi);
    assert Elements(s) <= Span(lo, hi);
    SubsetSize(Elements(s), Span(lo, hi));
    if |s| == hi - lo + 1 {
      forall x | lo <= x <= hi
        ensures x in s
      {
        assert x in Span(lo, hi);
      }
    }
  }

  /** The loop can never leave when more numbers are requested than the range
      holds, or a negative number is requested: whatever is drawn, it is
      still drawing. */
  lemma NeverReturnsWhenUnsatisfiable(n: int, lowerLimit: int, upperLimit: int, draws: seq<int>)
    requires ValidDraws(lowerLimit, upperLimit, draws)
    requires n < 0 || n > ReachSize(lowerLimit, upperLimit)
    ensures Sample(n, lowerLimit, upperLimit, draws).StillDrawing?
  {
    var outcome := Sample(n, lowerLimit, upperLimit, draws);
    SampleShape(n, lowerLimit, upperLimit, draws);
    DistinctWithinSpan(outcome.numbers, ReachLow(lowerLimit, upperLimit), ReachHigh(lowerLimit, upperLimit));
  }

  /** At every step the array is no longer than the number of values the
      range holds. */
  lemma CollectedWithinReachSize(lowerLimit: int, upperLimit: int, draws: seq<int>, k: nat)
    requires ValidDraws(lowerLimit, upperLimit, draws)
    requires k <= |draws|
    ensures |Collected(Values(lowerLimit, upperLimit, draws), k)| <= ReachSize(lowerLimit, upperLimit)
  {
    var vs := Values(lowerLimit, upperLimit, draws);
    CollectedDistinct(vs, k);
    CollectedInReach(lowerLimit, upperLimit, vs, k);
    DistinctWithinSpan(Collected(vs, k), ReachLow(lowerLimit, upperLimit), ReachHigh(lowerLimit, upperLimit));
  }

  /** When exactly as many numbers are requested as the range holds and the
      loop returns, the result is an ordering of the whole range. */
  lemma FullRangeIsPermutation(lowerLimit: int, upperLimit: int, draws: seq<int>)
    requires ValidDraws(lowerLimit, upperLimit, draws)
    requires Sample(ReachSize(lowerLimit, upperLimit), lowerLimit, upperLimit, draws).Returned?
    ensures var numbers := Sample(ReachSize(lowerLimit, upperLimit), lowerLimit, upperLimit, draws).numbers;
      && NoDuplicates(numbers)
      && forall x :: x in numbers <==> InReach(lowerLimit, upperLimit, x)
  {
    var n := ReachSize(lowerLimit, upperLimit);
    var outcome := Sample(n, lowerLimit, upperLimit, draws);
    SampleShape(n, lowerLimit, upperLimit, draws);
    DistinctWithinSpan(outcome.numbers, ReachLow(lowerLimit, upperLimit), ReachHigh(lowerLimit, upperLimit));
  }

  /** Draws 0, 1, 2, ... (or 0, -1, -2, ... for an inverted range): the first
      `n` draws are all different. */
  function Staircase(lowerLimit: int, upperLimit: int, n: nat): seq<int> {
    seq(n, k => if 1 + upperLimit - lowerLimit > 0 then k else -k)
  }

  /** When the first `n` drawn values are all different, a request for `n`
      numbers returns exactly those values, after exactly `n` draws. */
  lemma DistinctDrawsReturn(n: nat, lowerLimit: int, upperLimit: int, draws: seq<int>)
    requires ValidDraws(lowerLimit, upperLimit, draws)
    requires n <= |draws|
    requires NoDuplicates(Values(lowerLimit, upperLimit, draws)[..n])
    ensures Sample(n, lowerLimit, upperLimit, draws) == Returned(Values(lowerLimit, upperLimit, draws)[..n], n)
  {
    var vs := Values(lowerLimit, upperLimit, draws);
    forall k | 0 <= k <= n
      ensures Collected(vs, k) == vs[..k]
    {
      CollectedSamePrefix(vs, n, k);
      CollectedOfDistinct(vs[..n], k);
      assert vs[..n][..k] == vs[..k];
    }
  }

  /** The draws 0, 1, ..., n - 1 (0, -1, ..., 1 - n for an inverted range)
      make a request for any `n` up to the range size return after `n` draws. */
  lemma StaircaseReturns(n: nat, lowerLimit: int, upperLimit: int)
    requires n <= ReachSize(lowerLimit, upperLimit)
    ensures ValidDraws(lowerLimit, upperLimit, Staircase(lowerLimit, upperLimit, n))
    ensures Sample(n, lowerLimit, upperLimit, Staircase(lowerLimit, upperLimit, n)) == Returned(Values(lowerLimit, upperLimit, Staircase(lowerLimit, upperLimit, n)), n)
  {
    var draws := Staircase(lowerLimit, upperLimit, n);
    var vs := Values(lowerLimit, upperLimit, draws);
    assert vs[..n] == vs;
    DistinctDrawsReturn(n, lowerLimit, upperLimit, draws);
  }

  /** The loop can return for some sequence of draws exactly when the requested
      length is between 0 and the number of values in the range. */
  lemma CanReturnIffSatisfiable(n: int, lowerLimit: int, upperLimit: int)
    ensures (exists draws :: ValidDraws(lowerLimit, upperLimit, draws) && Sample(n, lowerLimit, upperLimit, draws).Returned?)
        <==> 0 <= n <= ReachSize(lowerLimit, upperLimit)
  {
    if 0 <= n <= ReachSize(lowerLimit, upperLimit) {
      StaircaseReturns(n, lowerLimit, upperLimit);
    } else {
      forall draws | ValidDraws(lowerLimit, upperLimit, draws)
        ensures Sample(n, lowerLimit, upperLimit, draws).StillDrawing?
      {
        NeverReturnsWhenUnsatisfiable(n, lowerLimit, upperLimit, draws);
      }
    }
  }
}
