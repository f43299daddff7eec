# Unique random sampler of the wallpaper gallery

The gallery app fetches a list of wallpapers and shows a random handful of
them. It picks which ones with `RandManager.js`:

- `randomNumberInRange(lowerLimit, upperLimit)` scales one `Math.random()` draw
  onto the inclusive range `[lowerLimit, upperLimit]`.
- `uniqueRandomNumbers(numRandomNumbers, lowerLimit, upperLimit)` samples
  without replacement by rejection. It keeps a growing array. It draws a value
  and pushes it only when `indexOf` does not find it. It stops when the array's
  length equals `numRandomNumbers`.

The model (Dafny, three modules):

- `RandManager` (RandManager.dfy) has the two operations and their
  specification. The random source is a parameter. One draw is the integer
  `floor(u * (1 + upperLimit - lowerLimit))` for a uniform `u` in [0, 1);
  `IsScaledDraw` gives its possible values, including those for an inverted
  range. The sampler is a method whose loop grows a local array variable and
  consumes a finite sequence of draws. Its outcome is either `Returned` (the
  loop left) or `StillDrawing` (every draw was used and the source would keep
  looping). The method is proved equal to `Sample`, a loop-free description:
  `Collected(vs, k)` is the array after `k` drawn values, and `FirstExit` is the
  first draw count at which the length equals the request.
- `SamplerProperties` (SamplerProperties.dfy) proves how the array grows, its
  order, the pigeonhole bound, when the loop can return at all, and the
  full-range permutation.
- `Gallery` (Gallery.dfy) models the one caller (index.ios.js:145-149). The
  upper limit there is off by one; see "## Findings".

A request the range cannot satisfy (more numbers than the range holds, or a
negative count) is not rejected up front: the loop runs forever. The model
follows the code, so for such a request the outcome is `StillDrawing` whatever
is drawn (`NeverReturnsWhenUnsatisfiable`).

## Model

| member | source | states |
|---|---|---|
| RandManager.RandomNumberInRange | RandManager.js:12-14 | For `lowerLimit <= upperLimit` the value lies in `[lowerLimit, upperLimit]`; for an inverted range it lies in `(upperLimit, lowerLimit]` |
| RandManager.RandomNumberInRangeOnto | RandManager.js:13 | Every value the range can yield comes from exactly one draw |
| RandManager.IndexOf | RandManager.js:6 | `indexOf` gives -1 exactly when the value is absent, and otherwise its first position |
| RandManager.Absorb | RandManager.js:6-7 | One pass of the loop body: afterwards the drawn value is in the array; an array that already held it is unchanged; otherwise the value is appended at the end |
| RandManager.Collected | RandManager.js:3-8 | The array after the loop body has run for the first `k` drawn values, starting from `[]`; it has at most `k` elements |
| RandManager.Sample | RandManager.js:2-10 | The loop-free description of the sampler: it returns after the fewest draws at which the array length equals the request, with that array (so of length `numRandomNumbers`); otherwise it is still drawing with a length that differs |
| RandManager.FirstExit | RandManager.js:4 | The loop leaves after the fewest draws at which the array length equals the request; if there is none, the length differs after every draw |
| RandManager.CollectedMembers | RandManager.js:5-7 | A value is in the array exactly when it was drawn |
| RandManager.CollectedDistinct | RandManager.js:6-7 | The array never holds a value twice |
| RandManager.SampleShape | RandManager.js:2-10 | The sampler returns only when the length equals `numRandomNumbers`; the result is duplicate-free and within range |
| RandManager.UniqueRandomNumbers | RandManager.js:2-10 | The loop's outcome equals `Sample`; a returned array has the requested length; a request of 0 returns `[]` with no draw; the array is duplicate-free and within range |
| SamplerProperties.CollectedGrowsByAppending | RandManager.js:6-7 | A draw already in the array leaves it unchanged; a new one is appended at the end |
| SamplerProperties.CollectedPrefix | RandManager.js:6-7 | The array after fewer draws is a prefix of the array after more: nothing is removed or reordered |
| SamplerProperties.CollectedInFirstDrawOrder | RandManager.js:7 | Elements appear in the order in which they were first drawn |
| SamplerProperties.CollectedOfDistinct | RandManager.js:6-7 | When all drawn values differ, every one of them is kept, in order |
| SamplerProperties.DistinctWithinSpan | RandManager.js:4-7 | Pigeonhole: a duplicate-free array from `[lo, hi]` has at most `hi - lo + 1` elements, and has that many only when it holds every value |
| SamplerProperties.NeverReturnsWhenUnsatisfiable | RandManager.js:4-7 | For a negative request, or one larger than the range, the loop never returns, whatever is drawn |
| SamplerProperties.FullRangeIsPermutation | RandManager.js:4-7 | When the request equals the range size and the loop returns, the result holds every value of the range exactly once |
| SamplerProperties.CollectedWithinReachSize | RandManager.js:4-7 | After every draw the array is no longer than the number of values the range holds |
| SamplerProperties.DistinctDrawsReturn | RandManager.js:4-8 | When the first `n` drawn values are all different, a request for `n` returns exactly those values, in draw order, after exactly `n` draws |
| SamplerProperties.StaircaseReturns | RandManager.js:4-8 | For the draws 0, 1, ..., n - 1 (0, -1, ... for an inverted range), any request `n` up to the range size returns after exactly `n` draws |
| SamplerProperties.CanReturnIffSatisfiable | RandManager.js:4-8 | Some sequence of draws makes the loop return exactly when `numRandomNumbers` is between 0 and the range size |
| Gallery.Lookup | index.ios.js:148 | `jsonData[randomId]`: the element when the index is inside the list, `undefined` otherwise |
| Gallery.WallIdsAsWritten | index.ios.js:145 | The call as written, upper limit `jsonData.length`: a returned result has `NUM_WALLPAPERS` indices, each between 0 and the length inclusive |
| Gallery.WallIds | index.ios.js:145 | The call with upper limit `jsonData.length - 1`: a returned result has `NUM_WALLPAPERS` indices, and for a non-empty list each is a valid index |
| Gallery.PickWalls | index.ios.js:146-149 | Each sampled index becomes `jsonData[index]`; no entry is `undefined` exactly when every index is inside the list |
| Gallery.AsWrittenCanReadPastEnd | index.ios.js:145-148 | As written, a list of length L >= 4 and the draws L, 0, 1, 2, 3 give the indices [L, 0, 1, 2, 3], and index L reads `undefined` |
| Gallery.CorrectedPicksOnlyFetched | index.ios.js:145-148 | With upper limit `length - 1`, every index the sampler returns is inside the list; for an empty list the loop never returns |

## Left out

- `Math.random()` and the floating-point scaling are not modelled. A draw is the integer that `floor(u * width)` produces. The probability distribution, uniformity and termination with probability 1 are not modelled.
- The loop is not guaranteed to terminate. The model gives it a finite sequence of draws and reports `StillDrawing` when they run out.
- JavaScript numbers are doubles. Non-integer arguments, and integers beyond 2^53, are not modelled; all arguments are Dafny integers.
- The array `uniqueNumbers` is local to the call and never shared before it is returned. It is a sequence variable that the loop reassigns, not a heap array.
- The rest of index.ios.js is not part of this model: rendering, the Swiper carousel, the PanResponder and ShakeEvent wiring, the `fetch` call, the CameraRoll save and AlertIOS, and `setState`. These are UI, I/O and asynchronous callbacks into third-party libraries.
- `isDoubleTap` (index.ios.js:109-114) is not modelled. It depends on the wall clock and on `Utils.distance`; Utils.js is not part of this model.
- With the call as written, a fetched list of fewer than 4 wallpapers makes the sampler loop forever. With the corrected call, a list of fewer than 5 does. Both follow from `NeverReturnsWhenUnsatisfiable`; no guard is modelled because the source has none.

## Findings

| source | as written | input that shows it | evidently intended | confidence | as-written member | corrected member |
|---|---|---|---|---|---|---|
| index.ios.js:145 | `uniqueRandomNumbers(NUM_WALLPAPERS, 0, jsonData.length)`, with an inclusive upper limit, so index `jsonData.length` can be drawn, and `jsonData[randomId]` at line 148 is then `undefined` | a list of 4 wallpapers and draws 4, 0, 1, 2, 3: the indices are [4, 0, 1, 2, 3] | upper limit `jsonData.length - 1`, so that every index selects a fetched wallpaper | not executed | Gallery.AsWrittenCanReadPastEnd | Gallery.CorrectedPicksOnlyFetched |
