/**
 The unique random sampler of the wallpaper gallery (RandManager.js).

 `randomNumberInRange` scales one uniform draw onto an inclusive integer range,
 and `uniqueRandomNumbers` collects distinct values by rejection: it draws,
 appends the value when it is not yet in its array, and stops when the array
 has the requested length.

 The random source is a parameter. One draw is the integer `floor(u * width)`
 for a uniform `u` in [0, 1) and `width == 1 + upperLimit - lowerLimit`; the
 sampler receives the sequence of draws it will consume, in order.
 */
module RandManager {

  datatype Option<T> = None | Some(value: T)

  /** What the sampling loop has done with a finite supply of draws: either it
      left the loop after `drawsUsed` draws and returned `numbers`, or every
      draw was consumed while the exit condition still did not hold (the
      source would then go on drawing), with `numbers` collected so far. */
  datatype Outcome = Returned(numbers: seq<int>, drawsUsed: nat) | StillDrawing(numbers: seq<int>)

  /** `r` is a value that `floor(u * width)` takes for some `u` in [0, 1):
      0 <= r < width for a positive width, width <= r <= 0 otherwise. */
  predicate IsScaledDraw(width: int, r: int) {
    if width > 0 then 0 <= r < width else width <= r <= 0
  }

  predicate ValidDraws(lowerLimit: int, upperLimit: int, draws: seq<int>) {
    forall k :: 0 <= k < |draws| ==> IsScaledDraw(1 + upperLimit - lowerLimit, draws[k])
  }

  /** Least and greatest value `randomNumberInRange` can return. For an inverted
      range (lowerLimit > upperLimit) the formula still returns values, in
      (upperLimit, lowerLimit]. */
  function ReachLow(lowerLimit: int, upperLimit: int): int {
    if lowerLimit <= upperLimit then lowerLimit else upperLimit + 1
  }

  function ReachHigh(lowerLimit: int, upperLimit: int): int {
    if lowerLimit <= upperLimit then upperLimit else lowerLimit
  }

  /** How many distinct values `randomNumberInRange` can return. */
  function ReachSize(lowerLimit: int, upperLimit: int): nat {
    ReachHigh(lowerLimit, upperLimit) - ReachLow(lowerLimit, upperLimit) + 1
  }

  predicate InReach(lowerLimit: int, upperLimit: int, x: int) {
    ReachLow(lowerLimit, upperLimit) <= x <= ReachHigh(lowerLimit, upperLimit)
  }

  /** randomNumberInRange: one scaled draw shifted by the lower limit. */
  function RandomNumberInRange(lowerLimit: int, upperLimit: int, draw: int): (v: int)
    requires IsScaledDraw(1 + upperLimit - lowerLimit, draw)
    ensures lowerLimit <= upperLimit ==> lowerLimit <= v <= upperLimit
    ensures upperLimit < lowerLimit ==> upperLimit < v <= lowerLimit
    ensures InReach(lowerLimit, upperLimit, v)
  {
    draw + lowerLimit
  }

  /** Every value in reach comes from exactly one draw. */
  lemma RandomNumberInRangeOnto(lowerLimit: int, upperLimit: int, v: int)
    requires InReach(lowerLimit, upperLimit, v)
    ensures IsScaledDraw(1 + upperLimit - lowerLimit, v - lowerLimit)
    ensures RandomNumberInRange(lowerLimit, upperLimit, v - lowerLimit) == v
    ensures forall draw :: IsScaledDraw(1 + upperLimit - lowerLimit, draw) ==>
              (RandomNumberInRange(lowerLimit, upperLimit, draw) == v <==> draw == v - lowerLimit)
  {
  }

  /** Array.prototype.indexOf on an array of integers: the first position of
      `x` in `s`, or -1 when `x` does not occur. */
  function IndexOf(s: seq<int>, x: int): (i: int)
    ensures -1 <= i < |s|
    ensures i == -1 <==> x !in s
    ensures 0 <= i ==> s[i] == x && forall j :: 0 <= j < i ==> s[j] != x
  {
    if s == [] then -1
    else if s[0] == x then 0
    else
      var j := IndexOf(s[1..], x);
      if j == -1 then -1 else j + 1
  }

  predicate NoDuplicates(s: seq<int>) {
    forall i, j :: 0 <= i < j < |s| ==> s[i] != s[j]
  }

  /** One pass of the loop body on the array `acc` for the drawn value `v`. */
  function Absorb(acc: seq<int>, v: int): (r: seq<int>)
    ensures v in r
    ensures v in acc ==> r == acc
    ensures v !in acc ==> r == acc + [v]
  {
    if IndexOf(acc, v) == -1 then acc + [v] else acc
  }

  /** The array after the loop body has run once for each of the first `k`
      values of `vs`, in order, starting from the empty array. */
  function Collected(vs: seq<int>, k: nat): (r: seq<int>)
    requires k <= |vs|
    ensures |r| <= k
  {
    if k == 0 then [] else Absorb(Collected(vs, k - 1), vs[k - 1])
  }

  /** The values `randomNumberInRange` returns for the given draws. */
  function Values(lowerLimit: int, upperLimit: int, draws: seq<int>): (vs: seq<int>)
    requires ValidDraws(lowerLimit, upperLimit, draws)
    ensures |vs| == |draws|
    ensures forall k :: 0 <= k < |vs| ==> vs[k] == RandomNumberInRange(lowerLimit, upperLimit, draws[k])
    ensures forall k :: 0 <= k < |vs| ==> InReach(lowerLimit, upperLimit, vs[k])
  {
    if draws == [] then []
    else [RandomNumberInRange(lowerLimit, upperLimit, draws[0])] + Values(lowerLimit, upperLimit, draws[1..])
  }

  /** The least `k` in [from, |vs|] at which the loop condition
      `uniqueNumbers.length != n` fails after `k` draws, if there is one. */
  function FirstExit(n: int, vs: seq<int>, from: nat): (e: Option<nat>)
    requires from <= |vs|
    ensures e.Some? ==> from <= e.value <= |vs| && |Collected(vs, e.value)| == n
    ensures forall k :: from <= k <= |vs| && (e.None? || k < e.value) ==> |Collected(vs, k)| != n
    decreases |vs| - from
  {
    if |Collected(vs, from)| == n then Some(from)
    else if from == |vs| then None
    else FirstExit(n, vs, from + 1)
  }

  /** What uniqueRandomNumbers(n, lowerLimit, upperLimit) does with `draws`,
      stated without the loop: it stops after the fewest draws whose first
      occurrences number exactly `n`. */
  function Sample(n: int, lowerLimit: int, upperLimit: int, draws: seq<int>): (r: Outcome)
    requires ValidDraws(lowerLimit, upperLimit, draws)
    ensures r.Returned? ==> |r.numbers| == n && r.drawsUsed <= |draws|
    ensures r.StillDrawing? ==> |r.numbers| != n
  {
    var vs := Values(lowerLimit, upperLimit, draws);
    match FirstExit(n, vs, 0)
    case Some(k) => Returned(Collected(vs, k), k)
    case None => StillDrawing(Collected(vs, |vs|))
  }

  /** A value that was drawn is in the array, and the array holds nothing else. */
  lemma {:induction false} CollectedMembers(vs: seq<int>, k: nat)
    requires k <= |vs|
    ensures forall x :: x in Collected(vs, k) <==> x in vs[..k]
  {
    if k > 0 {
      CollectedMembers(vs, k - 1);
      assert vs[..k] == vs[..k - 1] + [vs[k - 1]];
    }
  }

  /** The array never holds a value twice. */
  lemma {:induction false} CollectedDistinct(vs: seq<int>, k: nat)
    requires k <= |vs|
    ensures NoDuplicates(Collected(vs, k))
  {
    if k > 0 {
      CollectedDistinct(vs, k - 1);
    }
  }

  /** Every value in the array is one `randomNumberInRange` can return. */
  lemma CollectedInReach(lowerLimit: int, upperLimit: int, vs: seq<int>, k: nat)
    requires k <= |vs|
    requires forall j :: 0 <= j < |vs| ==> InReach(lowerLimit, upperLimit, vs[j])
    ensures forall x :: x in Collected(vs, k) ==> InReach(lowerLimit, upperLimit, x)
  {
    CollectedMembers(vs, k);
  }

  /** What every outcome of the sampler looks like: it returns exactly when the
      array reached the requested length, and the array is duplicate-free and
      holds only values `randomNumberInRange` can return. */
  lemma SampleShape(n: int, lowerLimit: int, upperLimit: int, draws: seq<int>)
    requires ValidDraws(lowerLimit, upperLimit, draws)
    ensures var outcome := Sample(n, lowerLimit, upperLimit, draws);
      && (outcome.Returned? ==> |outcome.numbers| == n && outcome.drawsUsed <= |draws|)
      && (outcome.StillDrawing? ==> |outcome.numbers| != n)
      && NoDuplicates(outcome.numbers)
      && (forall x :: x in outcome.numbers ==> InReach(lowerLimit, upperLimit, x))
  {
    var vs := Values(lowerLimit, upperLimit, draws);
    var used := match FirstExit(n, vs, 0) case Some(k) => k case None => |vs|;
    CollectedDistinct(vs, used);
    CollectedInReach(lowerLimit, upperLimit, vs, used);
  }

  /** uniqueRandomNumbers, driven by a finite supply of draws. */
  method UniqueRandomNumbers(numRandomNumbers: int, lowerLimit: int, upperLimit: int, draws: seq<int>)
    returns (outcome: Outcome)
    requires ValidDraws(lowerLimit, upperLimit, draws)
    ensures outcome == Sample(numRandomNumbers, lowerLimit, upperLimit, draws)
    ensures outcome.Returned? ==> |outcome.numbers| == numRandomNumbers && outcome.drawsUsed <= |draws|
    ensures outcome.StillDrawing? ==> |outcome.numbers| != numRandomNumbers
    ensures numRandomNumbers == 0 ==> outcome == Returned([], 0)
    ensures NoDuplicates(outcome.numbers)
    ensures forall x :: x in outcome.numbers ==> InReach(lowerLimit, upperLimit, x)
  {
    ghost var vs := Values(lowerLimit, upperLimit, draws);
    var uniqueNumbers: seq<int> := [];
    var i := 0;
    while |uniqueNumbers| != numRandomNumbers && i < |draws|
      invariant 0 <= i <= |draws|
      invariant uniqueNumbers == Collected(vs, i)
      invariant forall k :: 0 <= k < i ==> |Collected(vs, k)| != numRandomNumbers
      decreases |draws| - i
    {
      var currentRandomNumber := RandomNumberInRange(lowerLimit, upperLimit, draws[i]);
      if IndexOf(uniqueNumbers, currentRandomNumber) == -1 {
        uniqueNumbers := uniqueNumbers + [currentRandomNumber];
      }
      i := i + 1;
    }
    if |uniqueNumbers| == numRandomNumbers {
      outcome := Returned(uniqueNumbers, i);
    } else {
      outcome := StillDrawing(uniqueNumbers);
    }
    SampleShape(numRandomNumbers, lowerLimit, upperLimit, draws);
  }
}
