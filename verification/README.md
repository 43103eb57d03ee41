# Weight-and-balance envelope and wind measurement store, in Dafny

This project models two components of the XCSoar glide computer.

**Weight and balance** (`src/WeightAndBalanceManager.hpp`, `src/WeightAndBalanceManager.cpp`).
A *station* is a point mass at a lever *arm* from the datum. It is either a
dry station with a fixed mass, or a wet station: a ballast tank whose mass is
its fill level times the density of its liquid. The manager keeps two ordered
station lists. The *expendable* list holds wet stations with a dump time
above zero. The *non-expendable* list holds everything else. The manager sums
masses and moments into a centre of gravity (CG). It tests a (CG, mass) point
against an envelope given by a minimum and a maximum limit record, each a
weight with a forward and an aft CG limit. The forward and aft bounds at any
weight come from straight lines through the two records.

**Wind measurement store** (`Common/Header/windmeasurementlist.h`,
`Common/Source/windmeasurementlist.cpp`). This is a list of at most 200
measurements. Each measurement is a wind vector with a quality, a time and an
altitude. When the list is full, a new measurement overwrites the "least
important" one. That is the item with the highest score
`600 * (6 - quality) + age`; ties go to the highest index. If no score is
positive, the last item is overwritten.

Modules:

- `options.dfy` — `Options`: `Option`, plus a sum of optional reals.
- `stations.dfy` — `Stations`: the station sum type, densities, the
  constructors and `Fill`.
- `envelope.dfy` — `Envelope`: limit records and the slope-intercept
  interpolation.
- `manager.dfy` — `WeightAndBalance`: the manager, mass/moment/CG folds,
  station routing, envelope tests and CG completeness.
- `fixture.dfy` — `RendererFixture`: the hard-coded loading of the chart
  renderer, as a concrete lemma.
- `wind.dfy` — `WindMeasurements`: the bounded store, the reference
  definition of the item to evict, and the downward scan that computes it.

Arithmetic is exact (`real`, `int`). An unset limit field, a tank never
filled and a CG at zero total mass are `None`. The uninitialised liquid
byte of a wet station is instead a parameter of the constructor model,
since the original never writes it and any byte value is possible.

Points where the code says something other than its own comments or a
first reading suggests; the model follows the code:

- `GetSlopeInterceptLimit` receives the CG limits as `x` and the limit
  weights as `y` (`src/WeightAndBalanceManager.cpp:57-58`), so its degenerate
  test `x1 == x2` compares CG limits, not weights. Equal weights with
  different CG limits divide by zero.
- The doc comment of `Fill` (`src/WeightAndBalanceManager.cpp:215-219`)
  promises the overflow amount, but line 224 returns
  `max_capacity - ballast_to_add`, which is negative.
- The class comment at `src/WeightAndBalanceManager.hpp:79-80` says a wet
  station's mass depends on the liquid it holds, but the constructor at
  `src/WeightAndBalanceManager.cpp:188-190` drops `liquid_type`.

## Model

| member | source | states |
|---|---|---|
| Stations.Density | src/WeightAndBalanceManager.cpp:196-213 | density is 0.755 exactly when the stored byte is the FUEL code and 1 otherwise (WATER and any other byte fall to the default branch) |
| Stations.GetMass | src/WeightAndBalanceManager.cpp:196-213 | a dry station weighs its stored mass; a wet station's mass is known exactly when its capacity is, and is that capacity times 0.755 or times 1 |
| Stations.GetMoment | src/WeightAndBalanceManager.hpp:57 | the moment of every station is its mass times its arm, defined exactly when the mass is |
| Stations.NewDryStation | src/WeightAndBalanceManager.hpp:71-73 | a dry station's mass is always the constructor's mass, its type the given one (DRY by default), and it is complete and not expendable |
| Stations.NewWetStation | src/WeightAndBalanceManager.cpp:188-190 | the constructor as written: type WET, mass unknown until the first fill, expendable iff dump time > 0, and the liquid byte is not the argument but whatever was in memory |
| Stations.WetStationIgnoresLiquidType | src/WeightAndBalanceManager.cpp:188-190 | the constructed station is the same whatever liquid type is passed |
| Stations.WetStationFuelCounterexample | src/WeightAndBalanceManager.cpp:188-190 | a station built as FUEL and filled to 20 can weigh 20 instead of 15.1 |
| Stations.NewWetStationIntended | src/WeightAndBalanceManager.hpp:87 | the corrected constructor stores the liquid type, so the density is that liquid's, and it starts empty (mass 0) |
| Stations.IntendedWetStationMass | src/WeightAndBalanceManager.cpp:196-213 | with the corrected constructor, a fill within capacity weighs amount times the liquid's density (FUEL 0.755, WATER 1) |
| Stations.FillLevel | src/WeightAndBalanceManager.cpp:220-231 | the new capacity is min(amount, max_capacity), with no lower clamp |
| Stations.Fill | src/WeightAndBalanceManager.cpp:220-231 | Fill as written: only the capacity changes; on overflow the result is max_capacity - amount (never positive), otherwise 0; the new mass is capacity times density |
| Stations.FillOverflowSignCounterexample | src/WeightAndBalanceManager.cpp:215-224 | overfilling a tank of capacity 20 with 25 returns -5 where the comment promises the overflow 5 |
| Stations.FillIntended | src/WeightAndBalanceManager.cpp:215-219 | the corrected Fill leaves the same state and returns the non-negative overflow, so stored level plus overflow equals the amount asked for |
| Stations.FillKeepsIdentity | src/WeightAndBalanceManager.cpp:228 | filling changes neither the arm, the type, the expendability nor the maximum capacity |
| Stations.FillLastWins | src/WeightAndBalanceManager.cpp:228 | filling overwrites the capacity, so two fills equal the last one |
| Envelope.DefaultLimitIncomplete | src/WeightAndBalanceManager.hpp:103-105 | a default limit has weight, forward and aft limit unset, and so is not complete |
| Envelope.SlopeInterceptLimit | src/WeightAndBalanceManager.cpp:68-79 | equal CG limits give that limit for every weight; otherwise, with both weights set and different, the result lies on the line through (x1, y1), (x2, y2) at y = weight; equal weights with different CG limits, or an unset operand, give no value |
| Envelope.SlopeInterceptIsLerp | src/WeightAndBalanceManager.cpp:64-79 | with different weights, the slope-intercept result equals two-point linear interpolation between the limits |
| Envelope.SlopeInterceptEndpoints | src/WeightAndBalanceManager.cpp:68-79 | weight y1 gives x1 and weight y2 gives x2 |
| Envelope.SlopeInterceptFlatUndefined | src/WeightAndBalanceManager.cpp:73-75 | equal weights with different CG limits make the slope zero and the result undefined |
| WeightAndBalance.AddStation | src/WeightAndBalanceManager.hpp:131-139 | a dry station, or a wet one with dump time 0, is appended to the non-expendable list; an expendable wet one to the expendable list; the other list and the limits are unchanged |
| WeightAndBalance.AddStationKeepsInvariant | src/WeightAndBalanceManager.hpp:141-146 | adding keeps "expendable list = expendable stations only", and the manager's stations become the old ones plus the new one |
| WeightAndBalance.AddStationsPartitions | src/WeightAndBalanceManager.hpp:141-146 | adding a sequence splits it into its expendable and non-expendable stations, each list keeping insertion order |
| WeightAndBalance.SetMinLimit | src/WeightAndBalanceManager.hpp:128-130 | GetMinLimit then returns exactly the limit set; the maximum limit and both station lists are untouched |
| WeightAndBalance.SetMaxLimit | src/WeightAndBalanceManager.hpp:125-127 | GetMaxLimit then returns exactly the limit set; the minimum limit and both station lists are untouched |
| WeightAndBalance.MassSum | src/WeightAndBalanceManager.cpp:117-124 | the mass sum of a list is known exactly when every station's mass is known |
| WeightAndBalance.MomentSum | src/WeightAndBalanceManager.cpp:97-112 | the moment sum is known exactly when the mass sum is |
| WeightAndBalance.SumsAppend | src/WeightAndBalanceManager.cpp:84-92 | mass and moment sums over two lists in a row are the sums of the two |
| WeightAndBalance.GetTotalMass | src/WeightAndBalanceManager.cpp:84-92 | expendable mass plus non-expendable mass is the mass of all stations of both lists |
| WeightAndBalance.CenterOfGravity | src/WeightAndBalanceManager.cpp:110-111 | the CG exists exactly when the mass is known and non-zero, and CG times mass equals the total moment |
| WeightAndBalance.GetTotalCenterOfGravity | src/WeightAndBalanceManager.cpp:97-112 | total CG exists iff the total mass is known and non-zero, and times the total mass gives the moment of both lists |
| WeightAndBalance.GetNonExpendableCenterOfGravity | src/WeightAndBalanceManager.cpp:129-138 | the non-expendable CG is moment over mass of the non-expendable list only, undefined at zero mass |
| WeightAndBalance.AddStationMass | src/WeightAndBalanceManager.hpp:131-139 | adding any station adds its mass to the total; only a non-expendable one adds to the non-expendable mass |
| WeightAndBalance.CenterOfGravityBetweenArms | src/WeightAndBalanceManager.cpp:97-112 | with all masses positive, the CG exists and lies between the smallest and the largest arm |
| WeightAndBalance.EnvelopeIsQuadrilateral | src/WeightAndBalanceManager.cpp:56-62 | with complete limits at different weights, the inclusive weight test plus CG test is exactly membership of the quadrilateral spanned by the four limit corners |
| WeightAndBalance.EqualLimitWeightsNeedEqualCGLimits | src/WeightAndBalanceManager.cpp:68-79 | in the model, where an undefined bound compares false: when both limits share a weight, a CG test can pass only if both forward limits and both aft limits are equal |
| WeightAndBalance.TotalEnvelopeIsQuadrilateral | src/WeightAndBalanceManager.cpp:38-43 | for complete limits at two different weights, TotalWithinEnvelope is quadrilateral membership of (total moment / total mass, total mass) |
| WeightAndBalance.NonExpendableEnvelopeIsQuadrilateral | src/WeightAndBalanceManager.cpp:49-54 | for complete limits at two different weights, NonExpendableWithinEnvelope is the same over the non-expendable list and ignores the expendable list |
| WeightAndBalance.UnsetLimitsRejectEveryWeight | src/WeightAndBalanceManager.hpp:114-116 | when either limit record was never set (all fields not-a-number), the limits are incomplete, no weight passes the weight test, and neither envelope test passes |
| WeightAndBalance.WeightTestSatisfiable | src/WeightAndBalanceManager.hpp:114-116 | some weight passes the inclusive weight test exactly when both limit weights are set and the minimum does not exceed the maximum |
| WeightAndBalance.LimitsCompleteAfterSetting | src/WeightAndBalanceManager.cpp:144-146 | after setting both limit records the manager's limits are complete exactly when both records are; adding a station never changes that |
| WeightAndBalance.CompleteLimitsGiveBounds | src/WeightAndBalanceManager.cpp:30-32 | complete limit records at different weights give a defined forward and aft CG bound at every weight |
| WeightAndBalance.FindFirst | src/WeightAndBalanceManager.cpp:158-160 | find_if returns the first station of the wanted type, or nothing when none has it |
| WeightAndBalance.CenterOfGravityCompleteIff | src/WeightAndBalanceManager.cpp:153-174 | the CG is complete iff the non-expendable list has an EMPTY station and a PILOT station |
| WeightAndBalance.AddOtherStationKeepsCompleteness | src/WeightAndBalanceManager.cpp:153-174 | adding a station that is neither EMPTY nor PILOT, so any wet station, never changes CG completeness |
| RendererFixture.FixtureEnvelope | src/Renderer/WeightAndBalanceRenderer.cpp:44-63 | whatever the liquid byte: non-expendable mass 150 with CG 250; bounds 210 and 300 at weight 150; non-expendable loading inside the envelope; total mass 170 or 165.1 with CG beyond 300, so not inside |
| RendererFixture.FixtureWithIntendedConstructor | src/Renderer/WeightAndBalanceRenderer.cpp:56-57 | with the corrected constructor the fixture is the WATER case: total mass 170, outside the envelope |
| WindMeasurements.LeastImportant | Common/Source/windmeasurementlist.cpp:164-185 | the item to evict is an existing index; if some score is positive it has the maximal score and every later item scores strictly less; otherwise it is the last index; an empty list gives 0xFFFFFFFF |
| WindMeasurements.GetLeastImportantItem | Common/Source/windmeasurementlist.cpp:164-185 | the downward scan with strict comparison computes exactly that item |
| WindMeasurements.AddMeasurement | Common/Source/windmeasurementlist.cpp:140-158 | a list with room gets the record (vector, quality, time, altitude) appended; a full list keeps 200 items, and only the least important slot is overwritten; the bound of 200 is preserved |
| WindMeasurements.AddToFullEvictsHighestScore | Common/Source/windmeasurementlist.cpp:143-157 | on a full list where some item scores above 0, the evicted item scores at least as high as every other, and the contents change by exactly evicted-out, new-in |
| WindMeasurements.CountAfterAdds | Common/Source/windmeasurementlist.cpp:143-157 | over any sequence of adds the count grows by one per add until 200, then stays 200 |
| WindMeasurements.AddsBeforeFullKeepEverything | Common/Source/windmeasurementlist.cpp:147-157 | until the list fills up, every added sample is stored in order after the items already there |
| WindMeasurements.FreshListCount | Common/Source/windmeasurementlist.cpp:55-57 | a new list is empty and holds min(n, 200) items after n adds |

## Left out

- Station names, `unique_ptr` ownership and the copies made by `AddStation`. Stations are values in sequences.
- Floating point. Sums, products and quotients are exact, and 0.755 is an exact real.
- Envelope.SlopeInterceptLimit: with equal weights and different CG limits, the original yields plus or minus infinity, or a not-a-number when the weight equals the limit weight. The model yields None.
- WeightAndBalance.WithinCGLimits: an undefined bound compares false. For equal limit weights and a weight different from them, the original can compare a CG against an infinite bound and answer true. At the limit weight itself, the original gets a not-a-number, so the envelope tests agree with the model.
- WeightAndBalance.EqualLimitWeightsNeedEqualCGLimits: holds for the model's None bound only. In the original, at a weight other than the shared limit weight the division gives an infinite bound, so with limits (100, 200, 300) and (100, 220, 300) the CG 250 at weight 50 passes the CG test although the forward limits differ. At the shared weight itself the original divides zero by zero and the test fails, so the envelope tests, whose weight test forces that weight, agree with the lemma.
- WeightAndBalance.CenterOfGravity: at zero total mass with a non-zero moment, the original yields an infinity. The model yields None, like the not-a-number of zero over zero.
- WeightAndBalance.TotalWithinEnvelope and WeightAndBalance.NonExpendableWithinEnvelope: they answer false when a wet station has never been filled. The original reads an indeterminate capacity there.
- The 32-bit width of the wind score. Signed overflow is undefined in C++, so the score is an unbounded `int`. Qualities 1..5 and ages of hours keep it far from the bounds.
- Fractional `Time`: the time passed to the wind list is an integer, so both truncations to an integer are the identity.
- `WindMeasurementList::getWind`: floating-point weighting with `fabs`, `iround` and rational decay curves.
- The wind list's `new`/`delete` memory management and destructor.
- Chart rendering, the plane and units dialogs, the airspace warning dialog and the thermal assistant gauge. Only the renderer's hard-coded fixture is used, as a lemma.

## Findings

| source | as written | input that shows it | evidently intended | confidence | as-written member | corrected member |
|---|---|---|---|---|---|---|
| src/WeightAndBalanceManager.cpp:220-224 | on overflow `Fill` returns `max_capacity - ballast_to_add`, a negative number | a tank of capacity 20 filled with 25 returns -5 | return the overflow amount 5 (`ballast_to_add - max_capacity`), as the comment at lines 215-219 says | medium, not executed | Stations.FillOverflowSignCounterexample | Stations.FillIntended |
| src/WeightAndBalanceManager.cpp:188-190 | the wet station constructor ignores `liquid_type` and never sets `current_capacity` | a FUEL station of capacity 20 filled to 20 weighs 20 when the uninitialised byte is 0, not 15.1 | store `liquid_type` (and start with an empty tank) | high, not executed | Stations.WetStationFuelCounterexample | Stations.NewWetStationIntended |
