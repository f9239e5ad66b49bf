# map_fitter: the search-and-score engine, in Dafny

`MapFitter` aligns a live elevation map with a reference map. It tries every
rotation `theta = 0, inc, 2 inc, ...` below 360 degrees. At each rotation it
tries every candidate cell of the reference map. For each pose,
`findMatches` walks the live map on a stride grid and pairs every defined
live elevation with the reference elevation it lands on. An overlap gate
then decides whether the pose counts. A pose that passes gets three scores
over the recorded pairs: SAD, SSD and NCC (normalised cross-correlation).
The search then updates:

- a vote matrix (`acceptedThetas`);
- a coarse score map that keeps, per cell, the best score and its rotation;
- the best candidate of each rotation.

Finally it picks one rotation per score. A pick needs the score to meet its
threshold, and the candidate must have passed the gate at every rotation.
`findZ` computes the vertical offset at the chosen pose.

The project has these modules:

- `Grids`: the circular-buffer index arithmetic of the grid library (wrap, range check, buffer/logical conversion) and raster layers. An undefined (NaN) cell is `None`.
- `Metrics`: a set of recorded pairs (`MatchSet`). It defines SAD, SSD and NCC and their weighted variants as functions over sequences. It proves their signs, when they are zero, and the NCC bound `[-1, 1]` via a weighted Cauchy–Schwarz inequality.
- `Matching`: the stride walk of `findMatches` as a sequence of per-sample `Probe`s, the `Tally` they build, and the overlap gate (`Match`).
- `Accumulation`: the per-cell update of the coarse score map, and what a cell holds after a sequence of events.
- `Selection`: the rotation slots, the per-rotation bests, the vote count and the final gated choice.
- `Search`: the events the two loops of `exhaustiveSearch` produce, the slot bests, and the offset of `findZ`, all as values.
- `Fitter`: the class `MapFitter`. Its fields are the recorded state of `findMatches`. Its methods run the walk, the score loops, the rotation and candidate loops (over an `array` of per-rotation bests, an `array2` of votes and an `array2` of coarse cells), the final selection and `findZ`. Each method is proved against the functions of the modules above.

Floats are modelled as `real`, so arithmetic is exact. Rotation angles are
integers. Index wrapping uses Dafny's Euclidean `%`, which matches the
library's wrap into `[0, n)`.

The foreign pieces are parameters:

- the rotated, truncated sample offset (`Scene.shift`);
- the sparse iterators (a sequence of candidate buffer indices, and a sequence of live sample indices for `findZ`);
- the coarse-cell lookup (`cellOf`);
- the square root (`sqrt`, constrained by `IsSqrt`);
- the transform-and-read of `findZ` (`lookup`).

## Model

| member | source | states |
|---|---|---|
| `Grids.Wrap` | src/MapFitter.cpp:458-459 | the wrapped coordinate lies in `[0, n)`, is congruent to x modulo n, and is x itself when x is already in range |
| `Grids.WrapIndex` | src/MapFitter.cpp:458-459 | a wrapped index is inside the map, and an index already inside the map is unchanged |
| `Grids.WrapAddTurns` | src/MapFitter.cpp:466-467 | adding whole turns of the buffer (k * n) does not change the wrapped coordinate |
| `Grids.FromBuffer` | src/MapFitter.cpp:153-155 | the logical index of a candidate's buffer index always lies inside the reference map |
| `Grids.BufferRoundTrip` | src/MapFitter.cpp:153-155 | buffer-to-logical and logical-to-buffer conversion are inverse to each other on in-range indices, in both orders |
| `Grids.FromBufferInjective` | src/MapFitter.cpp:153-155 | distinct candidate buffer slots give distinct logical indices |
| `Matching.InverseVariance` | src/MapFitter.cpp:487-488 | the recorded weight is defined exactly when the variance is defined and nonzero, and it is then the reciprocal of the variance |
| `Matching.ReferenceAnchor` | src/MapFitter.cpp:466-467 | the wrapped rotation anchor; `Matching.ReferenceAnchorIsFromBuffer` states what it equals |
| `Matching.ReferenceAnchorIsFromBuffer` | src/MapFitter.cpp:466-467 | `reference_size - reference_start_index + reference_index`, wrapped, equals the buffer-to-logical conversion of the index passed to `findMatches`; since the search passes an index it already converted (line 155), the walk is centred on the candidate converted twice, which is the recorded index only when the reference start is zero |
| `Matching.ProbeAt` | src/MapFitter.cpp:458-490 | one stride sample: undefined, counted without a pair, or a recorded pair with its weight; `Matching.ProbeChecks` states when each happens |
| `Matching.ProbeChecks` | src/MapFitter.cpp:458-490 | a sample counts as a point exactly when its wrapped live cell is defined; a pair is recorded only after the rotated index passed the range check, and the recorded values are the wrapped live cell and the re-wrapped reference cell |
| `Matching.RowProbes` | src/MapFitter.cpp:456-490 | the samples of the inner stride loop in order; `Matching.RowLength` states how many |
| `Matching.GridProbes` | src/MapFitter.cpp:454-490 | the samples of both stride loops, row by row; `Matching.SampleCount` states how many |
| `Matching.RowLength` | src/MapFitter.cpp:456 | the inner stride loop from column j visits `(cols - j) / inc` samples |
| `Matching.SampleCount` | src/MapFitter.cpp:454-457 | the whole walk visits `(rows / inc) * (cols / inc)` samples |
| `Matching.TallyOf` | src/MapFitter.cpp:463-489 | `points` counts the samples with a defined live elevation; the three recorded sequences all have one entry per recorded pair, and there are never more pairs than points |
| `Matching.Record` | src/MapFitter.cpp:463-489 | the loop body's update of the counters and the three recorded sequences; `Matching.TallyAppend` ties it to `TallyOf` |
| `Matching.TallyAppend` | src/MapFitter.cpp:463-489 | one more sample updates the state exactly as the loop body does |
| `Matching.Accepted` | src/MapFitter.cpp:495-496 | the overlap gate `matches_ > points * requiredOverlap_`; `Matching.GateBounds` states its consequences |
| `Matching.WalkTally` | src/MapFitter.cpp:454-490 | the state the whole stride walk leaves; `Matching.TallyOf` and `Matching.SampleCount` state its shape and size |
| `Matching.GateBounds` | src/MapFitter.cpp:496 | with a non-negative required overlap, an accepted walk has at least one pair; with a required overlap of at least 1, no walk is accepted |
| `Matching.MatchOf` | src/MapFitter.cpp:495-502 | the gate passes exactly when `matches > points * requiredOverlap`; a passing tally yields exactly its recorded live elevations, reference elevations and weights, with the means of the recorded live and reference sequences and at most `points` pairs |
| `Matching.Match` | src/MapFitter.cpp:436-503 | the outcome of the whole walk at one pose: success iff the gate passes on the walk's tally; on success, exactly the walk's recorded pairs and weights with their arithmetic means; with overlap >= 0 a success has a pair, and with overlap >= 1 there is never a success |
| `Matching.MatchMeansBalance` | src/MapFitter.cpp:498-499 | on every success, including an empty one, the deviations of the live and of the reference values from their recorded means each sum to zero |
| `Metrics.Sad` | src/MapFitter.cpp:715-727 | SAD is undefined (0/0) exactly when there are no pairs, and otherwise non-negative |
| `Metrics.Ssd` | src/MapFitter.cpp:745-757 | SSD is undefined exactly when there are no pairs, and otherwise non-negative |
| `Metrics.SadZeroIffCentredEqual` | src/MapFitter.cpp:715-727 | with pairs present, SAD is 0 iff every mean-centred live value equals its mean-centred reference value |
| `Metrics.SsdZeroIffCentredEqual` | src/MapFitter.cpp:745-757 | with pairs present, SSD is 0 iff every mean-centred live value equals its mean-centred reference value |
| `Metrics.PositiveWeightSums` | src/MapFitter.cpp:729-773 | with positive weights, both weighted error sums are non-negative and both normalisations are positive when there are pairs |
| `Metrics.WeightedSad` | src/MapFitter.cpp:729-743 | defined only when every weight is defined and the normalisation is nonzero; with positive weights and pairs present it is defined and non-negative |
| `Metrics.WeightedSsd` | src/MapFitter.cpp:759-773 | defined only when every weight is defined and the squared-weight normalisation is nonzero; with positive weights and pairs present it is defined and non-negative |
| `Metrics.WeightedSadZeroIffCentredEqual` | src/MapFitter.cpp:729-743 | with positive weights and pairs present, weighted SAD is 0 iff every centred live value equals its centred reference value |
| `Metrics.CauchySchwarz` | src/MapFitter.cpp:775-813 | for non-negative weights, the squared weighted cross sum is at most the product of the two weighted norms (the bound behind both NCC variants) |
| `Metrics.NccSumsBounded` | src/MapFitter.cpp:775-788 | both normalisation sums of `correlationNCC` are non-negative, and the squared cross sum is at most their product |
| `Metrics.Ncc` | src/MapFitter.cpp:775-789 | NCC is undefined exactly when the product of the two norms is 0 (the cross sum is then 0 as well); otherwise it lies in `[-1, 1]` and times `sqrt(product)` gives back the cross sum |
| `Metrics.NccIsQuotient` | src/MapFitter.cpp:788 | when the product of the norms is nonzero, NCC is the cross sum divided by the square root of that product, and the square root is positive |
| `Metrics.NccOfSums` | src/MapFitter.cpp:775-788 | from the three sums the loop computes, NCC is `None` when their product is 0 and the quotient otherwise |
| `Metrics.NccOfIdenticalCentred` | src/MapFitter.cpp:775-788 | when the centred sequences are identical, the cross sum equals both norms, and NCC is 1 when they are nonzero |
| `Metrics.WeightedNcc` | src/MapFitter.cpp:791-814 | weighted NCC is defined iff every weight is defined and the product of the weighted norms is positive; with non-negative weights it lies in `[-1, 1]` |
| `Metrics.WeightedNccBounded` | src/MapFitter.cpp:791-813 | with a positive product of the weighted norms its square root is positive, and with non-negative weights the quotient lies in `[-1, 1]` |
| `Metrics.WeightedNccIsQuotient` | src/MapFitter.cpp:813 | when it is defined, weighted NCC is the weighted cross sum over the square root of the product of the weighted norms |
| `Metrics.WeightedNccOfSums` | src/MapFitter.cpp:791-813 | from the flag and the three sums the loop computes, weighted NCC is `None` when a weight is undefined or the product is not positive, and the quotient otherwise |
| `Accumulation.UpdateCell` | src/MapFitter.cpp:191-221 | the "correlation" layer never decreases and ends at least NCC + 1.5; the "SSD" layer never increases and ends at most 5 * SSD; each rotation layer changes only together with its score layer, to the current theta; every gate is "layer invalid, or strictly better": correlation takes NCC + 1.5 when invalid or when that is strictly larger, SSD takes 5 * SSD when invalid or strictly smaller, SAD takes 5 * SAD when invalid or when 5 * SSD is strictly below the stored SAD, MI takes the MI when invalid or strictly larger, each with the current theta, and otherwise (a tie, an undefined score, a failed SSD test) the layer and its rotation are kept; an invalid layer takes the current theta even when the score written is undefined |
| `Accumulation.SadCanGrow` | src/MapFitter.cpp:207-213 | because the SAD layer is gated on 5 * SSD, a stored SAD of 1 can be replaced by 5 |
| `Accumulation.Apply` | src/MapFitter.cpp:186-221 | one event's effect on a coarse cell: `UpdateCell` when the event succeeded and its candidate lies in that cell, otherwise nothing |
| `Accumulation.Accumulate` | src/MapFitter.cpp:186-221 | a coarse cell after a run of events, each touching success updating it in order; `Accumulation.CorrelationIsBest`, `Accumulation.SsdIsBest`, `Accumulation.SadIsWritten`, `Accumulation.MiKeepsFirstRotation` and `Accumulation.NothingReached` state what it holds |
| `Accumulation.AccumulateConcat` | src/MapFitter.cpp:145-250 | a cell after the events of a then b is the cell after a, updated by b |
| `Accumulation.CorrelationIsBest` | src/MapFitter.cpp:191-197 | after any events, a cell's correlation is at least NCC + 1.5 of every defined success that reached it, and (correlation, rotationNCC) is unset or was written by one of those successes; the layer is defined iff some success with a defined NCC reached the cell, and then its rotation is that of the first such success reaching the maximum |
| `Accumulation.SsdIsBest` | src/MapFitter.cpp:199-205 | after any events, a cell's SSD is at most 5 * SSD of every defined success that reached it, and (SSD, rotationSSD) is unset or was written by one of them; the layer is defined iff some success with a defined SSD reached the cell, and then its rotation is that of the first such success reaching the minimum |
| `Accumulation.SadIsWritten` | src/MapFitter.cpp:207-213 | after any events, a cell's (SAD, rotationSAD) is unset or is (5 * SAD, theta) of one of the successes that reached it; rotationSAD is set iff some success reached the cell |
| `Accumulation.MiKeepsFirstRotation` | src/MapFitter.cpp:215-221 | since every success carries MI -10, a cell's MI layer holds -10 with the rotation of the first success that reached it |
| `Accumulation.NothingReached` | src/MapFitter.cpp:186-189 | a cell no success reaches stays invalid in every layer |
| `Selection.RotationSlots` | src/MapFitter.cpp:145 | the theta loop always runs at least once |
| `Selection.SlotOverflowAsWritten` | src/MapFitter.cpp:111-150 | with an increment of 7 the loop reaches theta = 357, whose slot 51 equals the declared array length `int(360/7)` |
| `Selection.RotationSlotsInRange` | src/MapFitter.cpp:145-150 | the t-th rotation is t * inc, its slot `theta / inc` is t, and it is tried iff t is below the number of rotation slots |
| `Selection.SlotsAgreeWhenDividing` | src/MapFitter.cpp:111-125 | when the increment divides 360, the declared array length equals the number of rotations tried |
| `Selection.SlotTheta` | src/MapFitter.cpp:283 | slot i's rotation `i * angleIncrement_` is a multiple of the increment in `[0, 360)` |
| `Selection.Improve` | src/MapFitter.cpp:225-248 | one candidate's step on a rotation's best: the slot is kept unless the candidate's defined score strictly beats it, in which case it takes that score and index; afterwards neither the old slot nor the candidate's score beats it |
| `Selection.BestOf` | src/MapFitter.cpp:147-248 | a rotation's best, reset to the sentinel and improved by each candidate in order; `Selection.BestOfIsFirstOptimum` states what it holds |
| `Selection.BestsOfAppend` | src/MapFitter.cpp:225-248 | the bests after one more event are the bests before it, improved by that event |
| `Selection.BestOfIsFirstOptimum` | src/MapFitter.cpp:225-248 | a rotation's best score never loses to the sentinel or to any success; it is the sentinel when no candidate is stored, and otherwise strictly beats the sentinel and belongs to the first success reaching it (strict comparison) |
| `Selection.MiSlotNeverWritten` | src/MapFitter.cpp:243-248 | since every success carries MI -10, the MI slot keeps its sentinel -10 and never names a candidate |
| `Selection.Votes` | src/MapFitter.cpp:182 | `acceptedThetas` at an index: never more votes than events |
| `Selection.VotesAppend` | src/MapFitter.cpp:182 | one event adds exactly one vote at its index when it succeeded, and nothing otherwise |
| `Selection.VotesConcat` | src/MapFitter.cpp:182 | the votes of two event runs add up |
| `Selection.VotesOfDistinct` | src/MapFitter.cpp:153-182 | within one rotation with distinct candidates, an index has one vote iff it was matched and none otherwise |
| `Selection.FullVotesIffMatchedEverywhere` | src/MapFitter.cpp:182 | over n rotations of distinct candidates an index has at most n votes, and exactly n iff it was matched at every rotation |
| `Selection.Choose` | src/MapFitter.cpp:275-326 | the selection loop for one score; `Selection.ChooseIsBestQualified` states what it picks |
| `Selection.ChooseAppend` | src/MapFitter.cpp:275-326 | one more slot replaces the choice iff it strictly beats it, meets the threshold, names a candidate, and that candidate has full votes |
| `Selection.ChooseIsBestQualified` | src/MapFitter.cpp:275-326 | no qualified slot beats the choice; the choice is the sentinel with no rotation iff no slot qualifies; otherwise it is the earliest qualified slot reaching the best score, with theta = i * inc |
| `Selection.ChosenIsQualified` | src/MapFitter.cpp:275-326 | a choice has a position iff it has a rotation, its candidate has full votes, and its rotation is i * inc for a slot i |
| `Selection.MiNeverChosen` | src/MapFitter.cpp:313-325 | when every MI slot holds the sentinel, no MI choice is made |
| `Search.EventAt` | src/MapFitter.cpp:153-169 | a candidate's event is at the current theta, at the logical index of its buffer index (inside the reference map), and any scores it has carry MI -10; that logical index is also what `findMatches` receives and converts once more |
| `Search.CandidateScores` | src/MapFitter.cpp:162-169 | the scores of a success carry the MI sentinel |
| `Search.ScoresOf` | src/MapFitter.cpp:162-176 | a success's scores: MI is the sentinel -10, SSD and SAD are defined iff there is a pair and then non-negative, and a defined NCC lies in `[-1, 1]` |
| `Search.Sweep` | src/MapFitter.cpp:153-250 | one rotation's sweep yields one event per candidate, in candidate order |
| `Search.Rotations` | src/MapFitter.cpp:145-150 | the n rotations tried produce, in order, the sweeps at theta = t * inc |
| `Search.Sweeps` | src/MapFitter.cpp:145-250 | every event of the first n rotations in the order tried; `Search.SweepsStep` appends one rotation's sweep |
| `Search.SlotBests` | src/MapFitter.cpp:145-150 | there is one bests record per rotation tried |
| `Search.SlotBestsAt` | src/MapFitter.cpp:225-248 | slot t holds the bests of the sweep at theta = t * inc |
| `Search.SweepDistinct` | src/MapFitter.cpp:153-155 | distinct in-range candidates give events at distinct indices |
| `Search.FullVotesMeansEveryRotation` | src/MapFitter.cpp:182 | with distinct in-range candidates, an index has at most n votes after n rotations, and exactly n iff it passed the gate at every rotation |
| `Search.SlotBestsInRange` | src/MapFitter.cpp:228-229 | every slot that names a candidate names an index inside the reference map |
| `Search.ChoiceMatchedEveryRotation` | src/MapFitter.cpp:275-326 | a chosen position has a rotation and vice versa; the chosen index passed the gate at every rotation; the chosen rotation is a multiple of the increment in `[0, 360)` |
| `Search.ZPairs` | src/MapFitter.cpp:403-428 | `findZ` averages equally many live and reference elevations, at most one pair per sample |
| `Search.ZOffset` | src/MapFitter.cpp:429-433 | the offset is undefined exactly when there is no pair |
| `Search.ZOffsetOfShiftedPairs` | src/MapFitter.cpp:395-434 | when every reference elevation is its live elevation plus d, the offset is d (so 0 for equal pairs) |
| `Fitter.MapFitter.FindMatches` | src/MapFitter.cpp:436-503 | the recorded sequences are those of the whole walk; success iff the gate passes; on success the fields hold the means, and the object's state is exactly the match set of `Match` |
| `Fitter.MapFitter.Gate` | src/MapFitter.cpp:495-502 | accepts iff `matches > points * requiredOverlap`, then turns the sums into means; a rejected walk keeps its sums |
| `Fitter.MapFitter.WalkGrid` | src/MapFitter.cpp:438-493 | after the outer stride loop, `points` and the recorded sequences are the tally of the whole walk, and the sum fields are the sums of the recorded sequences |
| `Fitter.MapFitter.WalkRow` | src/MapFitter.cpp:456-492 | the inner stride loop extends the state by the tally of one row |
| `Fitter.MapFitter.RecordSample` | src/MapFitter.cpp:458-490 | one sample updates the points, the matches, the sums and the recorded sequences as its probe says |
| `Fitter.MapFitter.ErrorSad` | src/MapFitter.cpp:715-727 | the loop computes `Sad` of the recorded pairs |
| `Fitter.MapFitter.ErrorSsd` | src/MapFitter.cpp:745-757 | the loop computes `Ssd` of the recorded pairs |
| `Fitter.MapFitter.WeightedErrorSad` | src/MapFitter.cpp:729-743 | the loop computes `WeightedSad` of the recorded pairs |
| `Fitter.MapFitter.WeightedErrorSsd` | src/MapFitter.cpp:759-773 | the loop computes `WeightedSsd` of the recorded pairs |
| `Fitter.MapFitter.CorrelationNcc` | src/MapFitter.cpp:775-789 | the method computes `Ncc` of the recorded pairs |
| `Fitter.MapFitter.CentredSums` | src/MapFitter.cpp:777-787 | the loop computes the cross sum and the two norms of the centred pairs |
| `Fitter.MapFitter.WeightedCorrelationNcc` | src/MapFitter.cpp:791-814 | the method computes `WeightedNcc` of the recorded pairs |
| `Fitter.MapFitter.WeightedCentredSums` | src/MapFitter.cpp:794-811 | the loop computes the weighted cross sum and norms, and whether every weight is defined |
| `Fitter.MapFitter.Visit` | src/MapFitter.cpp:162-221 | one candidate gets the scores of its match; a success adds one vote at its index and updates the coarse cell it falls in; no other cell changes |
| `Fitter.MapFitter.Absorb` | src/MapFitter.cpp:162-221 | the votes and the coarse map move from the tally of the events seen so far to the tally of one more event |
| `Fitter.MapFitter.SweepRotation` | src/MapFitter.cpp:147-250 | the candidate loop returns the bests of the rotation's sweep, and the votes and coarse map take in that sweep's events after the earlier ones |
| `Fitter.MapFitter.SweepInto` | src/MapFitter.cpp:145-250 | one pass of the rotation loop takes the votes and the coarse map from the first t rotations to the first t + 1 |
| `Fitter.MapFitter.SweepAll` | src/MapFitter.cpp:99-255 | slot t of the bests array holds the bests of rotation t * inc; every vote and coarse cell equals what the events of all rotations give it |
| `Fitter.MapFitter.Rotate` | src/MapFitter.cpp:145-248 | rotation t's sweep stores its bests in slot t of the bests array and advances the votes and the coarse map from the first t rotations to the first t + 1 |
| `Fitter.MapFitter.ExhaustiveSearch` | src/MapFitter.cpp:97-327 | the four choices are the gated choices over the slot bests and votes of all rotations; the coarse map is the accumulation of all events; z is the `findZ` offset at the correlation choice |
| `Fitter.SelectBest` | src/MapFitter.cpp:275-326 | the selection loop over the slots computes `Choose` for the given score |
| `Fitter.FindZ` | src/MapFitter.cpp:395-434 | the loop computes the mean reference elevation minus the mean live elevation over the defined pairs, or `None` when there is none |

## Left out

- ROS plumbing is not modelled: the constructor and publishers, `readParameters`, the subscription and timer callbacks, bag loading, publishing the coarse map after each rotation, and `tfBroadcast`. These are I/O and message transport.
- Timing with `ros::Time`/`ros::Duration` is not modelled.
- The evaluation and logging block after the search (src/MapFitter.cpp:333-390) is not modelled. It compares against the true pose, prints, and publishes.
- Trigonometry is not modelled. The rotated, truncated sample offset of `findMatches` is the parameter `Scene.shift`. The `tf::Transform`, `isInside` and `atPosition` of `findZ` are the parameter `lookup`. That parameter does not capture that `findZ` builds its quaternion from `sin(theta/180*M_PI/2)` with an integer `theta` (src/MapFitter.cpp:412): the integer division truncates `theta/180` to 0 or 1 over the rotation range, so the transform rotates by 0° or 180° only, whatever the chosen rotation; a `lookup` supplied to the model is free to rotate by the true angle.
- `sqrt` is a parameter that only has to satisfy `IsSqrt`. Floating-point rounding is not modelled, because all arithmetic is exact over `real`.
- `mutualInformation` and `weightedMutualInformation` are not modelled. Their bodies are commented out and their call site is disabled. Only their -10 sentinel flows through the bookkeeping, and the model keeps that sentinel.
- The commented-out legacy `correlationNCC(position, theta)` is not part of this model.
- The internals of the grid_map library are specified by their contracts, not modelled:
  - the sparse iterators become sequences of indices;
  - `getPosition`/`isInside`/`getIndex` of the coarse map become `cellOf`;
  - the wrap and the range check become `Wrap` and `InRange`.
- Cell positions are not modelled. `exhaustiveSearch` reports a chosen pose as a reference index plus a rotation, not as metric x/y coordinates.
- Every IEEE non-finite value is modelled as undefined (`None`), including ±infinity. Examples: the weight `1 / variance` for a zero variance, and a score divided by zero.
- The stride `correlationIncrement_` and the rotation step `angleIncrement_` are required to be positive (`Settings.Valid`). The code does not check this. With a step of 0 or less, its loops `theta += angleIncrement_` (src/MapFitter.cpp:145) and `i, j += correlationIncrement_` (src/MapFitter.cpp:454-456) never end, and with a step of 0 `int(360/angleIncrement_)` (src/MapFitter.cpp:111-125) divides by zero. The model does not cover those inputs.
- Fitter.MapFitter.Gate: when the gate passes with zero pairs (possible only with a negative required overlap), the model leaves the sums at 0, where `findMatches` divides 0 by 0 and stores NaN. All scores of an empty match set are undefined either way.
- Fitter.MapFitter.ExhaustiveSearch: uses `ceil(360 / inc)` rotations, not `int(360/angleIncrement_)`, in two more places: the selection loop bound (src/MapFitter.cpp:275) and the full-vote target a candidate must reach (src/MapFitter.cpp:280, 292, 304, 316). The two agree when inc divides 360. Otherwise they differ. With inc = 7 there are 52 rotations: the code as written rejects a candidate matched in all 52 and accepts one matched in 51 of them, and the model does the opposite. `Selection.SlotsAgreeWhenDividing` proves the agreement case.
- Fitter.MapFitter.ExhaustiveSearch: when no correlation choice is made, `exhaustiveSearch` calls `findZ` with uninitialised coordinates. The model returns no offset (`None`) then.
- Fitter.FindZ: with no pair, `findZ` divides by zero and returns NaN. The model returns `None`.
- The weighted scores are modelled and proved, but the search uses the unweighted ones, as `exhaustiveSearch` does (its weighted calls are commented out).

## Findings

| source | as written | input that shows it | evidently intended | confidence | as-written member | corrected member |
|---|---|---|---|---|---|---|
| src/MapFitter.cpp:111-150 | the per-rotation arrays are declared with `int(360/angleIncrement_)` entries, but the loop `theta < 360; theta += angleIncrement_` runs 360 / inc rounded up times, writing slot `int(theta/angleIncrement_)` | `angleIncrement_ = 7`: the loop reaches theta = 357 and writes slot 51 of arrays with 51 entries | arrays with one slot per rotation tried, i.e. `ceil(360 / inc)` entries; the corrected model also reads that count wherever the code uses `int(360/angleIncrement_)` as the number of rotations, namely the selection loop bound and the full-vote target (see Left out) | not executed | `Selection.SlotOverflowAsWritten` | `Selection.RotationSlotsInRange` |
