/**
 The one use of the sampler in the gallery screen (index.ios.js): once the
 list of wallpapers has been fetched, it samples NUM_WALLPAPERS indices and
 collects the wallpapers at those indices for the carousel.

 As written, the call passes the list's length as the (inclusive) upper limit,
 so the index equal to the length can be drawn and its lookup yields
 `undefined`. `WallIdsAsWritten` keeps that call; `WallIds` passes
 `length - 1`, the last valid index.
 */
module Gallery {
  import opened RandManager
  import opened SamplerProperties

  /** NUM_WALLPAPERS: how many wallpapers one fetch shows. */
  const NumWallpapers: nat := 5

  /** `jsonData[id]` in JavaScript: the element, or `undefined` (None) for an
      index outside the array. */
  function Lookup<T>(jsonData: seq<T>, id: int): (r: Option<T>)
    ensures r.Some? <==> 0 <= id < |jsonData|
    ensures r.Some? ==> r.value == jsonData[id]
  {
    if 0 <= id < |jsonData| then Some(jsonData[id]) else None
  }

  /** The indices as the gallery samples them: upper limit `jsonData.length`. */
  function WallIdsAsWritten(length: nat, draws: seq<int>): (r: Outcome)
    requires ValidDraws(0, length, draws)
    ensures r.Returned? ==> |r.numbers| == NumWallpapers
    ensures forall id :: id in r.numbers ==> 0 <= id <= length
  {
    SampleShape(NumWallpapers, 0, length, draws);
    Sample(NumWallpapers, 0, length, draws)
  }

  /** The indices sampled up to the last valid index, `jsonData.length - 1`. */
  function WallIds(length: nat, draws: seq<int>): (r: Outcome)
    requires ValidDraws(0, length - 1, draws)
    ensures r.Returned? ==> |r.numbers| == NumWallpapers
    ensures length > 0 ==> forall id :: id in r.numbers ==> 0 <= id < length
  {
    SampleShape(NumWallpapers, 0, length - 1, draws);
    Sample(NumWallpapers, 0, length - 1, draws)
  }

  /** The forEach loop that pushes `jsonData[randomId]` for each sampled index. */
  method PickWalls<T>(jsonData: seq<T>, randomIds: seq<int>) returns (walls: seq<Option<T>>)
    ensures |walls| == |randomIds|
    ensures forall k :: 0 <= k < |walls| ==> walls[k] == Lookup(jsonData, randomIds[k])
    ensures (forall k :: 0 <= k < |walls| ==> walls[k].Some?)
        <==> (forall id :: id in randomIds ==> 0 <= id < |jsonData|)
  {
    walls := [];
    var i := 0;
    while i < |randomIds|
      invariant 0 <= i <= |randomIds|
      invariant |walls| == i
      invariant forall k :: 0 <= k < i ==> walls[k] == Lookup(jsonData, randomIds[k])
    {
      walls := walls + [Lookup(jsonData, randomIds[i])];
      i := i + 1;
    }
    if forall k :: 0 <= k < |walls| ==> walls[k].Some? {
      forall id | id in randomIds
        ensures 0 <= id < |jsonData|
      {
        var k :| 0 <= k < |randomIds| && randomIds[k] == id;
        assert walls[k].Some?;
      }
    }
    if forall id :: id in randomIds ==> 0 <= id < |jsonData| {
      forall k | 0 <= k < |walls|
        ensures walls[k].Some?
      {
        assert randomIds[k] in randomIds;
      }
    }
  }

  /** As written, a fetched list of at least four wallpapers can be sampled
      so that the first index is the list's length, whose lookup is
      `undefined`: with length L, the draws L, 0, 1, 2, 3 return exactly those
      indices. */
  lemma AsWrittenCanReadPastEnd<T>(jsonData: seq<T>)
    requires |jsonData| >= NumWallpapers - 1
    ensures var draws := [|jsonData|, 0, 1, 2, 3];
      && ValidDraws(0, |jsonData|, draws)
      && WallIdsAsWritten(|jsonData|, draws) == Returned(draws, NumWallpapers)
      && Lookup(jsonData, WallIdsAsWritten(|jsonData|, draws).numbers[0]) == None
  {
    var draws := [|jsonData|, 0, 1, 2, 3];
    var vs := Values(0, |jsonData|, draws);
    assert vs == draws;
    forall k | 0 <= k <= |vs|
      ensures Collected(vs, k) == vs[..k]
    {
      CollectedOfDistinct(vs, k);
    }
    assert vs[..|vs|] == vs;
  }

  /** With the upper limit corrected to the last valid index, every sampled
      index the loop returns selects a fetched wallpaper. For an empty list
      the loop never returns. */
  lemma CorrectedPicksOnlyFetched<T>(jsonData: seq<T>, draws: seq<int>)
    requires ValidDraws(0, |jsonData| - 1, draws)
    ensures |jsonData| == 0 ==> WallIds(|jsonData|, draws).StillDrawing?
    ensures WallIds(|jsonData|, draws).Returned? ==>
      forall id :: id in WallIds(|jsonData|, draws).numbers ==> Lookup(jsonData, id).Some?
  {
    SampleShape(NumWallpapers, 0, |jsonData| - 1, draws);
    if |jsonData| == 0 {
      NeverReturnsWhenUnsatisfiable(NumWallpapers, 0, |jsonData| - 1, draws);
    }
  }
}
