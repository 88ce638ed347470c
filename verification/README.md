# soup: a Dafny model of the simulation's rules

soup is a predator–prey artificial-life simulation written in Go, with a Python script that analyses the logs of its parameter optimizer. This project models the deterministic rules underneath the rendering and ECS plumbing as pure Dafny functions, plus a few methods with loops, and proves properties of them.

The modules follow the source files:

- **Optimizer-log analysis** (`Analyze`, experiments/exp10/analyze.py): running best, rolling mean, the tail-window classification of each parameter, the half-split verdict, the survival and cap estimates, implied quality, the best-20% subset and correlation markers.
- **Optimizer arithmetic**:
  - `OptParams` (cmd/optimize/params.go): the bounds table, normalise, denormalise, clamp and write-back.
  - `OptFitness` (cmd/optimize/fitness.go): the fitness formula, the coefficient of variation and the quality guards.
- **Telemetry**:
  - `TelemetryStats`: percentiles and window summaries.
  - `Collector`: the window collector.
  - `Bookmark`: the bookmark detector with its ring buffer.
  - `Perf`: the performance ring buffer.
  - `HallOfFame`: the hall of fame.
- **Simulation rules**:
  - `Energy`: metabolism, foraging and predation transfers with conservation accounting.
  - `Sensors`: top-k sector bins and the neural input layout.
  - Sector and cone vision: `SectorVision` and `ConeVision`.
  - `Capability`: edibility, penetration and threat.
  - `ParticleField`, `ResourceField` and the shared `Grid`: the particle pool, grazing and detritus mass accounting.
  - Path following and planning rules: `AStar` and `NavGrid`.
  - `Allocation`: the allocation-mode decision table.
  - Trait flags and inheritance: `Traits` and `Breeding`.
  - Neuro-evolution bookkeeping: `Reproduction` and `Species`.
  - `Ffnn`: the feed-forward brain.
- **Utilities**: `Camera` (toroidal camera maths and zoom), `Spatial` (the spatial hash and radius queries), `Overlays` (the overlay registry) and `SimMath` (systems/math.go plus the Go conversions the model needs).

## Modelling conventions

- **Numbers.** float32 and float64 values are modelled as `real`, so rounding, Inf and NaN are not modelled.
  - Go's `int(x)` on a float truncates toward zero; it is `SimMath.Trunc`.
  - Go's `%` on integers keeps the sign of the dividend; it is `SimMath.GoRem`.
  - Where the source relies on either, the model uses these explicitly.
- **Parameters.** Transcendental functions are function parameters: sqrt, exp, log, cos, atan2 and the exp-based quality scores. Where possible the model compares squares instead of calling sqrt.
- **Random draws.** Every random draw is an explicit parameter: picked indices, coin flips and Gaussian samples.
- **Configuration.** The global configuration singleton becomes an explicit configuration record.
- **Return values.** Go's `nil`, "not found" and NaN results are an `Option`.

## Notes on the source

- analyze.py takes the best subset as `max(1, int(0.2 n))` rows, which is a floor (experiments/exp10/analyze.py:242).
- The verdict compares the fixed first 100 and last 100 rows, whatever the log length (experiments/exp10/analyze.py:341-342).
  - For logs shorter than 200 rows the two halves overlap.
  - This is modelled as `Analyze.Head100` and `Analyze.Tail100`.
- The standard deviation of a single-row tail window is NaN in pandas, not 0.
  - The resulting normalised std fails both comparisons, so the parameter is classified "narrowing".
  - The model represents the NaN as `None`.
- The bounds table in analyze.py has 25 entries; the parameter table in cmd/optimize/params.go has 21. Each is modelled as written.

## Model

| member | source | states |
|---|---|---|
| Analyze.BoundsHavePositiveRange | experiments/exp10/analyze.py:17-43 | the bounds table has 25 parameters and every one has min < max, so the normalised spread at line 164 is always std / range |
| Analyze.OnlyPredDensityDefaultOutOfRange | experiments/exp10/analyze.py:45-55 | pred_density_k's default 0 lies below its minimum 10; every other default lies inside its bounds |
| Analyze.ArgMin | experiments/exp10/analyze.py:160 | idxmin returns a position holding the minimum fitness, and no earlier position holds it |
| Analyze.RunningBest | experiments/exp10/analyze.py:75 | cummin has the log's length; entry i is no greater than any of the first i + 1 fitnesses and equals one of them |
| Analyze.RunningBestNonIncreasing | experiments/exp10/analyze.py:75 | the best-so-far curve never rises |
| Analyze.CheckpointIsRunningBest | experiments/exp10/analyze.py:335-338 | the best of the first k evaluations printed at the checkpoints is the running-best entry k - 1 |
| Analyze.PrefixMinimum | experiments/exp10/analyze.py:335-338 | an entry among the first k that none of them undercuts is the minimum of the first k |
| Analyze.RollingMean | experiments/exp10/analyze.py:87 | rolling(10, min_periods=1).mean() has the log's length, starts with fitness[0], and each entry lies between the minimum and maximum of its window of up to ten latest values |
| Analyze.FirstWindowMean | experiments/exp10/analyze.py:87 | with min_periods=1 the first window holds only the first value, so its mean is fitness[0] |
| Analyze.RollingMeanWithin | experiments/exp10/analyze.py:87 | values confined to an interval keep every rolling mean inside that interval |
| Analyze.Last20 | experiments/exp10/analyze.py:150 | tail(20) is the last min(20, n) rows in order |
| Analyze.SampleVariance | experiments/exp10/analyze.py:157 | pandas std (ddof 1) exists exactly for two or more rows, and its square is non-negative |
| Analyze.Classify | experiments/exp10/analyze.py:164-182 | a non-positive range reads as converged; a spread pandas cannot compute reads as narrowing; hitting MIN exactly when the window is non-empty and its mean is within 5% of the range above min; hitting MAX exactly when MIN is not flagged and the mean is within 5% below max |
| Analyze.VarianceTestMatchesNormStd | experiments/exp10/analyze.py:164-177 | comparing variance with the squared thresholds gives the same status as comparing std / range with 0.10 and 0.20 |
| Analyze.ClassifyMatchesNormStd | experiments/exp10/analyze.py:164-177 | for a positive range and at least two rows, the classification equals the status of norm_std = std / range |
| Analyze.BoundFlagsExclusive | experiments/exp10/analyze.py:167-169 | for a positive range the mean cannot be both within 5% of min and within 5% of max, so at most one bound flag applies |
| Analyze.StatusLabel | experiments/exp10/analyze.py:171-182 | the printed status starts with the spread word, and is exactly that word when no bound is hit |
| Analyze.Head100 | experiments/exp10/analyze.py:341 | head(100) is the first min(100, n) rows |
| Analyze.Tail100 | experiments/exp10/analyze.py:342 | tail(100) is the last min(100, n) rows |
| Analyze.VerdictOf | experiments/exp10/analyze.py:343-360 | largely converged exactly when the absolute improvement is below 2% of the absolute first-half best; still improving exactly when that fails and the second half is better; otherwise converged early |
| Analyze.ConvergenceVerdict | experiments/exp10/analyze.py:341-360 | with h the smaller of 100 and the log length, a = best of the first h rows and b = best of the last h: largely converged exactly when the log is non-empty and the absolute difference of a and b is below 2% of the absolute a; still improving exactly when the log is non-empty, that test fails and b < a; an empty log reads as converged early |
| Analyze.ShortLogVerdict | experiments/exp10/analyze.py:341-360 | with at most 100 rows both halves are the whole log, so the verdict is largely converged unless the best is 0 |
| Analyze.ImprovingSecondHalf | experiments/exp10/analyze.py:341-360 | in a 200-row log, a second half better by at least 2% reads as still improving |
| Analyze.SurvivalEstimateBracket | experiments/exp10/analyze.py:104-110 | for a fitness from the fitness formula with quality in [0, 1], both the true survival and the -f / 1.1 estimate lie in [-f / 1.2, -f] |
| Analyze.CountWhere | experiments/exp10/analyze.py:364-365 | a cap count never exceeds the number of runs |
| Analyze.GenerousCountAtMostConservative | experiments/exp10/analyze.py:364-365 | every run counted at the generous cap (fitness <= -1.2 MAX_TICKS) is counted at the conservative cap (fitness <= -MAX_TICKS) |
| Analyze.Quartile | experiments/exp10/analyze.py:374-376 | each evaluation block is a slice of at most 50 rows |
| Analyze.QuartilesCoverFirst200 | experiments/exp10/analyze.py:374-376 | the four blocks, concatenated in order, are exactly the first 200 rows (fewer for a shorter log) |
| Analyze.ImpliedOf | experiments/exp10/analyze.py:447-454 | a quality is implied exactly when -best >= MAX_TICKS, and it is clamped to [0, 1]; otherwise the survival estimate -best / 1.1 is reported |
| Analyze.ImpliedQualityRoundTrip | experiments/exp10/analyze.py:448-450 | a run that hit the tick cap with quality q in [0, 1] reads back exactly q |
| Analyze.TopCount | experiments/exp10/analyze.py:241-242 | max(1, int(0.2 n)) is at least 1, at most n for a non-empty log, the truncated fifth from 5 rows on, and exactly 1 below 5 rows |
| Analyze.ArgMinAmong | experiments/exp10/analyze.py:243 | among candidate rows the chosen one has the smallest fitness and every earlier candidate is strictly worse (keep='first') |
| Analyze.Smallest | experiments/exp10/analyze.py:243 | nsmallest(k) returns min(k, candidates) distinct candidate rows |
| Analyze.TopSubset | experiments/exp10/analyze.py:241-243 | the top subset has max(1, int(0.2 n)) distinct rows of the log (none for an empty log) |
| Analyze.SmallestBeatsRest | experiments/exp10/analyze.py:243 | every row nsmallest takes is at least as good as every candidate it leaves |
| Analyze.SmallestStep | experiments/exp10/analyze.py:243 | one selection step takes the first smallest row and continues on the remaining rows, which stay distinct and in range |
| Analyze.TopSubsetIsBest | experiments/exp10/analyze.py:241-243 | every row of the top subset is at least as good as every row outside it |
| Analyze.Marker | experiments/exp10/analyze.py:406 | a marker has at most three stars, and a correlation pandas cannot compute gets none |
| Analyze.MarkerMonotone | experiments/exp10/analyze.py:406 | a stronger correlation never gets fewer stars |
| Analyze.MarkerTiers | experiments/exp10/analyze.py:406 | three stars exactly when the absolute correlation exceeds 0.3, two in (0.2, 0.3], one in (0.1, 0.2], none at or below 0.1 |
| Analyze.PercentOfRange | experiments/exp10/analyze.py:460 | a value inside its bounds lies between 0% and 100% of the range |
| Analyze.ShiftFromDefault | experiments/exp10/analyze.py:431 | the shift from the default is the difference of the two positions in percent of the range |
| Allocation.CalculateTargetCells | systems/allocation.go:63-109 | targets lie in [2, 10]: flora get an even size up to 8, fauna 3 to 6, and a carnivore at most 5, reaching 5 exactly when over 60% energy with food nearby |
| Allocation.TargetCellsMonotone | systems/allocation.go:63-109 | more energy never lowers the target, all else equal |
| Allocation.DetermineMode | systems/allocation.go:111-153 | Survive exactly below 20% energy or below 40% under threat; Breed exactly for fauna off cooldown with a cell and over 35% energy, or at target size with over 60%; Grow exactly below target with over 35% energy when breeding does not apply; flora never breed |
| Allocation.BreedNeedsReadiness | systems/allocation.go:111-153 | whatever the inputs, Breed mode implies fauna, zero cooldown and over 35% energy |
| Allocation.UpdateOrganism | systems/allocation.go:41-59 | the per-organism pass: flora never breed and get an even target; Breed implies at least one cell; Grow implies fewer cells than the target just computed |
| Breeding.IsEligible | systems/breeding.go:155-182 | eligible exactly when intent >= 0.6, mode is Breed, energy >= 70% of the maximum, at least one cell and no cooldown left |
| Breeding.EligibleIsFauna | systems/breeding.go:155-182 | an organism that passes the gates in the mode the allocation pass chose is fauna with zero cooldown |
| Breeding.DietsOf | systems/breeding.go:391-400 | the parents' diet list has at most three entries, each a diet trait the union has, and is non-empty when the union has a diet |
| Breeding.InheritTraits | systems/breeding.go:370-412 | the child is fauna with only diet traits, all taken from the parents; with no parental diet it is exactly Herbivore |
| Breeding.Survivors | systems/breeding.go:380-385 | the traits kept by the coin flips are diet traits of the parents' union |
| Breeding.DietFallback | systems/breeding.go:387-407 | the fallback diet is one of the parents' diets, or Herbivore when they have none |
| Breeding.AllHeadsKeepsUnion | systems/breeding.go:380-385 | with every coin heads the child has exactly the diet traits of the parents' union |
| Breeding.InheritTraitsAsexual | systems/breeding.go:416-438 | the child has exactly the parent's diet traits, or Herbivore when the parent has none; it is always fauna |
| Breeding.AsexualIsSelfMating | systems/breeding.go:370-438 | asexual inheritance equals sexual inheritance from the parent paired with itself and every coin heads |
| Traits.Has | traits/traits.go:47-49 | Has holds exactly when the two bit sets share a bit, so it is false against the empty set and true for any non-empty subset |
| Traits.Add | traits/traits.go:52-54 | the union has every bit either operand has, and nothing else |
| Traits.Remove | traits/traits.go:57-59 | the result shares no bit with the removed set and has no bit the original lacked |
| Traits.RemoveAfterAdd | traits/traits.go:52-59 | adding a set and then removing it is removing it |
| Traits.RemoveKeepsOthers | traits/traits.go:57-59 | removing a set leaves membership of every disjoint set unchanged |
| Traits.IsFlora | traits/traits.go:62-64 | flora have the Flora bit and neither Herbivore nor Carnivore |
| Traits.IsFauna | traits/traits.go:67-69 | fauna exactly when some diet bit (Herbivore, Carnivore, Carrion) is set |
| Traits.IsOmnivore | traits/traits.go:72-74 | an omnivore is fauna and not flora |
| Traits.ClassesOverlap | traits/traits.go:62-69 | the two classes are not exclusive: Flora with Carrion is both flora and fauna, and Herding alone is neither |
| Traits.GetVisionParams | traits/traits.go:113-134 | predator eyes give a 90-degree cone, prey eyes (without predator eyes) 270 degrees, otherwise 180; the range multiplier is 1.5 with predator eyes, 0.7 with prey eyes alone and 1.0 otherwise, times 1.5 with FarSight (2.25, 1.05, 1.5), so it lies in [0.7, 2.25] |
| Traits.PredatorEyesWin | traits/traits.go:121-127 | with predator eyes, adding prey eyes changes nothing |
| Traits.FarSightStretchesRange | traits/traits.go:129-131 | FarSight multiplies the range by 1.5 and leaves the field of view alone |
| Traits.TraitNames | traits/traits.go:137-182 | a name is listed exactly when its trait bit is set, in declaration order and without repeats |
| Capability.Edibility | neural/capability.go:37-44 | edibility lies in [0, 1]; it is 1 exactly when spectrum + composition = 1, 0 exactly when they are at least 1 away from that, and in between it falls by the distance |
| Capability.EdibilitySymmetric | neural/capability.go:37-44 | swapping the eater's spectrum and the target's composition leaves edibility unchanged |
| Capability.Penetration | neural/capability.go:48-50 | penetration lies in [0, 1], is positive exactly when edibility exceeds armor, and equals edibility minus armor when that is in [0, 1] |
| Capability.PenetrationAntitone | neural/capability.go:48-50 | more armor never raises penetration |
| Capability.NutritionMultiplier | neural/capability.go:55-60 | no penetration gives no nutrition; a penetration in (0, 1] gives a positive multiplier no greater than itself (the cube), and full penetration gives 1 |
| Capability.NutritionMonotone | neural/capability.go:55-60 | more penetration never lowers the multiplier |
| Capability.ThreatLevel | neural/capability.go:64-67 | threat lies in [0, 1], is positive exactly when their edibility of us exceeds our armor, and full armor makes it 0 |
| Capability.ThreatAntitoneInArmor | neural/capability.go:64-67 | more armor never raises the threat |
| SimMath.ClampFloat | systems/math.go:8-16 | below the minimum gives the minimum, inside gives the value, above the maximum gives the maximum; for min <= max the result lies in [min, max] |
| SimMath.Clamp01 | systems/math.go:19-27 | the result lies in [0, 1], equals the value inside it, and saturates at 0 and 1 outside |
| SimMath.Clamp01IsClampFloat | systems/math.go:8-27 | clamp01 is clampFloat with bounds 0 and 1 |
| SimMath.TorusDelta | systems/spatial.go:145-160 | the toroidal delta differs from to - from by at most one world length, is left alone within half a length, and for points inside the world lies in [-size/2, size/2] |
| SimMath.TorusDeltaAntisymmetric | systems/spatial.go:145-160 | the delta from b to a is the negated delta from a to b, including at exactly half a length |
| SimMath.AngleWrap | systems/math.go:32-40 | the closed form of the two loops lies in [-pi, pi] and leaves angles already there alone |
| SimMath.AngleWrapPeriodic | systems/math.go:32-40 | adding a full turn to the input gives the same wrapped angle, except that -pi and pi may swap |
| SimMath.NormalizeAngle | systems/math.go:32-40 | the result lies in [-pi, pi], differs from the input by whole turns, equals an input already in range, and agrees with the closed form AngleWrap |
| SimMath.NormalizeHeading | systems/math.go:43-52 | the result lies in [0, 2pi), differs from the input by whole turns, and equals an input already in range |
| OptParams.SpecsWellFormed | cmd/optimize/params.go:24-63 | the table has 21 parameters (Dim), every one with Min < Max; pred_density_k's default 0 lies below its Min 10 and every other default lies in its bounds |
| OptParams.DefaultVector | cmd/optimize/params.go:71-77 | the default vector has one entry per spec, equal to that spec's default |
| OptParams.DenormalizeNormalizeOne | cmd/optimize/params.go:80-95 | denormalising a normalised value gives it back when Max != Min |
| OptParams.NormalizeDenormalizeOne | cmd/optimize/params.go:80-95 | normalising a denormalised value gives it back when Max != Min |
| OptParams.NormalizeOneInUnit | cmd/optimize/params.go:80-86 | a value inside its bounds normalises into [0, 1], with Min at 0 and Max at 1 |
| OptParams.Normalize | cmd/optimize/params.go:80-86 | one entry per spec; in-range values land in [0, 1], Min on 0 and Max on 1 |
| OptParams.Denormalize | cmd/optimize/params.go:89-95 | one entry per spec; 0 maps to Min and 1 to Max |
| OptParams.DenormalizeNormalize | cmd/optimize/params.go:80-95 | Denormalize(Normalize(v)) = v whenever every Max != Min |
| OptParams.NormalizeDenormalize | cmd/optimize/params.go:80-95 | Normalize(Denormalize(n)) = n whenever every Max != Min |
| OptParams.Clamp | cmd/optimize/params.go:98-111 | one entry per spec, inside [Min, Max] when Min <= Max; in-range values pass unchanged, values below Min become Min, values above Max become Max |
| OptParams.ClampIdempotent | cmd/optimize/params.go:98-111 | clamping twice is clamping once |
| OptParams.ClampAgreesWithClampFloat | cmd/optimize/params.go:98-111 | each clamped entry is the simulation's clampFloat of the value to its bounds |
| OptParams.ClampedDefaults | cmd/optimize/params.go:44 | clamping the default vector raises pred_density_k from 0 to 10 and leaves every other default alone |
| OptParams.WriteVector | cmd/optimize/params.go:118-164 | the locked settings are written; the 18 scalar fields, the first two archetype rates (when present) and prey_density_k receive the vector's entries in table order; other archetypes are untouched |
| OptParams.ApplyToConfig | cmd/optimize/params.go:114-165 | the config receives the CLAMPED values in table order plus the locked settings; an archetype that does not exist is skipped without shifting the others |
| OptParams.AppliedValuesInBounds | cmd/optimize/params.go:114-164 | every scalar written by ApplyToConfig lies within its parameter's bounds |
| OptParams.AppliedRatesInBounds | cmd/optimize/params.go:153-161 | the archetype metabolic rates written lie within their bounds |
| OptParams.ApplyIdempotent | cmd/optimize/params.go:114-164 | applying the same vector twice gives the config applying it once gives |
| OptFitness.ComputeFitness | cmd/optimize/fitness.go:253-257 | for survival >= 0 and quality in [0, 1] the fitness lies in [-1.2 survival, -survival]; positive survival always gives a negative fitness |
| OptFitness.FitnessScale | cmd/optimize/fitness.go:256 | the quality bonus scales survival by a factor in [1, 1.2], and keeps a positive survival positive |
| OptFitness.FitnessRewardsSurvival | cmd/optimize/fitness.go:249-256 | survival dominates: surviving over 1.2 times longer wins whatever the two qualities in [0, 1] |
| OptFitness.FitnessRewardsQuality | cmd/optimize/fitness.go:249-256 | at equal positive survival the higher quality has the lower (better) fitness |
| OptFitness.CvSquared | cmd/optimize/fitness.go:355-374 | the squared coefficient of variation is non-negative, and 0 for empty input or zero mean |
| OptFitness.Cv | cmd/optimize/fitness.go:355-374 | cv is 0 for empty input and for zero mean |
| OptFitness.CvNonNegative | cmd/optimize/fitness.go:355-374 | cv is non-negative for data with a positive mean |
| OptFitness.CvSquaredAgrees | cmd/optimize/fitness.go:355-374 | with a square root that is one, cv squared is population variance over mean squared |
| OptFitness.ValidWindows | cmd/optimize/fitness.go:288-291 | every window where both populations reach qualityMinPop is kept as often as it occurs in the input, and no other window is kept (multiset count) |
| OptFitness.HuntingWindows | cmd/optimize/fitness.go:309 | every window with predators present and at least one bite attempted is kept as often as it occurs in the input, and no other window is kept (multiset count) |
| OptFitness.RatioScores | cmd/optimize/fitness.go:296-300 | one ratio score per window, in order |
| OptFitness.EnergyScores | cmd/optimize/fitness.go:302-306 | one energy score per window, in order |
| OptFitness.HuntScores | cmd/optimize/fitness.go:308-315 | one hunting score per window, in order |
| OptFitness.PreyCounts | cmd/optimize/fitness.go:293 | one prey count per window, in window order |
| OptFitness.PredCounts | cmd/optimize/fitness.go:294 | one predator count per window, in window order |
| OptFitness.ComputeQuality | cmd/optimize/fitness.go:271-352 | quality lies in [0, 1]; it is 0 with at most three windows or when no window after the warm-up is valid |
| OptFitness.WarmupIgnored | cmd/optimize/fitness.go:272-321 | when no window after the warm-up has both populations at 3 or more, quality is 0 |
| OptFitness.ClampInactiveForUnitScores | cmd/optimize/fitness.go:346-351 | with all component scores in [0, 1] the final clamp changes nothing |
| OptFitness.RawQualityInUnit | cmd/optimize/fitness.go:323-349 | with all component scores in [0, 1] the weighted sum (weights 0.30, 0.25, 0.25, 0.20) lies in [0, 1] |
| TelemetryStats.Insert | telemetry/stats.go:110 | inserting into a sorted list keeps it sorted, adds exactly one copy of the value, and keeps every other element |
| TelemetryStats.SortReals | telemetry/stats.go:108-110 | the sorted copy is sorted and a permutation of the input (sort.Float64s) |
| TelemetryStats.InterpBetween | telemetry/stats.go:89-90 | interpolating with a fraction in [0, 1] stays between the two neighbours |
| TelemetryStats.InterpMonotone | telemetry/stats.go:89-90 | a larger fraction never gives a smaller interpolated value |
| TelemetryStats.Percentile | telemetry/stats.go:69-91 | an empty slice gives 0; p <= 0 gives the first element; p >= 1 gives the last |
| TelemetryStats.Rank | telemetry/stats.go:82 | the interpolation index p (n - 1) lies in [0, n - 1] for p in (0, 1) |
| TelemetryStats.RankMonotone | telemetry/stats.go:82 | a larger p never gives a smaller index |
| TelemetryStats.AtRankBetween | telemetry/stats.go:82-90 | the interpolated value lies between sorted[lo] and sorted[lo + 1], and is the last element when lo + 1 runs past the end |
| TelemetryStats.AtRankMonotone | telemetry/stats.go:82-90 | on a sorted slice a larger index never gives a smaller interpolated value |
| TelemetryStats.PercentileInRange | telemetry/stats.go:69-91 | every percentile of a non-empty sorted slice lies between its first and last element |
| TelemetryStats.InteriorPercentileMonotone | telemetry/stats.go:81-90 | for p <= q inside (0, 1) the p-th percentile is at most the q-th |
| TelemetryStats.PercentileMonotone | telemetry/stats.go:69-91 | for any p <= q, including the end cases, the p-th percentile is at most the q-th |
| TelemetryStats.PermutationWithinExtremes | telemetry/stats.go:108-110 | every element of a permutation lies between the original's minimum and maximum |
| TelemetryStats.ComputeEnergyStats | telemetry/stats.go:94-117 | no values give all zeros; otherwise the mean lies within the values' range and p10 <= p50 <= p90 lie within it too |
| TelemetryStats.OrderedPercentiles | telemetry/stats.go:112-114 | over a sorted copy of the values, min <= p10 <= p50 <= p90 <= max |
| TelemetryStats.ComputeDietStats | telemetry/stats.go:120-151 | no values give all zeros; otherwise the mean and the ordered percentiles lie within the values' range, and the deviation is non-negative for a non-negative square root |
| TelemetryStats.DietStatsExtendEnergyStats | telemetry/stats.go:94-151 | the diet statistics share the energy statistics' mean and percentiles |
| Collector.NewCollector | telemetry/collector.go:29-41 | a window lasts at least one tick, and exactly the truncated windowDurationSec / dt ticks when that is at least 1; the window starts at tick 0 with no counts |
| Collector.Record | telemetry/collector.go:43-84 | recording an event adds one to exactly the counter it belongs to (births and deaths split by kind) and changes nothing else |
| Collector.RecordAllCounts | telemetry/collector.go:43-84 | after a run of events each counter has grown by the number of its events |
| Collector.Rate | telemetry/collector.go:117-123 | a rate is 0 when the denominator is not positive, otherwise numerator / denominator; a count not above its denominator gives a fraction in [0, 1] |
| Collector.Flush | telemetry/collector.go:108-184 | the row carries the window's counters, its start and the current tick, the hit and kill rates, the energy summaries, the populations, sim time, mean resource and active clades as given, each pool (resource, detritus, organisms, heat loss, particle input as energy input) copied, in-transit and the diet summary zero; the next window starts at the current tick with zeroed counters and the same length |
| Collector.FlushRestartsWindow | telemetry/collector.go:87-89 | right after a flush at tick t the collector is not due, and it is due again exactly from t + windowDurationTicks |
| Collector.RatesAreFractions | telemetry/collector.go:117-123 | with no more hits than attempts and no more kills than hits, both rates lie in [0, 1] |
| Bookmark.NewDetector | telemetry/bookmark.go:52-60 | the ring buffer has at least five slots (exactly the requested size above that), nothing written yet, and every tracker at zero |
| Bookmark.AddToHistory | telemetry/bookmark.go:107-113 | the row lands in the slot at the write index, the index advances modulo the size, and the buffer is marked full once the index wraps to 0; the trackers are untouched |
| Bookmark.GetHistory | telemetry/bookmark.go:115-120 | the history has as many rows as were written before the first wrap, and the whole buffer after it |
| Bookmark.NewDetectorHoldsEmptyLog | telemetry/bookmark.go:52-60 | a fresh detector's buffer represents the empty log of rows |
| Bookmark.AddToHistoryHolds | telemetry/bookmark.go:107-113 | appending to the ring buffer appends to the log it represents: write index = log length mod size, full iff the log reached the size, and each of the last size rows in slot (position mod size) |
| Bookmark.HistoryBeforeWrap | telemetry/bookmark.go:115-120 | until the buffer wraps, the history is exactly the log of rows added, in order |
| Bookmark.HistoryAfterWrap | telemetry/bookmark.go:115-120 | after the wrap the history has size rows and holds each of the last size rows of the log once, at position (index mod size) |
| Bookmark.CheckHunt | telemetry/bookmark.go:122-156 | with three rows of history and some hits both in it and now, a hunt bookmark fires exactly when the kills in the history are not zero, the window's kills reach the minimum, and its kill rate beats the multiplier times the history's pooled kills per hit; it never fires on shorter history or without hits |
| Bookmark.CheckForage | telemetry/bookmark.go:158-186 | with three rows of history, a forage bookmark fires exactly when the history's resource total is not zero and the window's resource at prey beats both the floor and the multiplier times the history mean; never on shorter history |
| Bookmark.CheckRecovery | telemetry/bookmark.go:188-209 | recovery fires exactly when the predator low is set, at most MinPopulation, and the count reaches both multiplier times the low and MinFinal; firing resets the low to the current count, otherwise it is kept |
| Bookmark.CheckCrash | telemetry/bookmark.go:211-232 | for a positive peak, a crash fires exactly when prey fell below the peak by more than DropPercent of it and by more than MinDrop; firing resets the peak to the current count, otherwise it is kept; no peak, no crash |
| Bookmark.PreyCounts | telemetry/bookmark.go:249-253 | the prey counts of the rows, position by position |
| Bookmark.PredCounts | telemetry/bookmark.go:249-253 | the predator counts of the rows, position by position |
| Bookmark.CheckStable | telemetry/bookmark.go:234-292 | a missing population resets the stable run; fewer than four rows leave it; otherwise the run grows by one when the last four rows have both squared cvs under the threshold and resets otherwise; the bookmark fires exactly when the run reaches StableWindows |
| Bookmark.StableFiresOncePerRun | telemetry/bookmark.go:283-289 | once the run stands at StableWindows the next check cannot fire again: a run fires once, not on every stable window after |
| Bookmark.Collect | telemetry/bookmark.go:63-91 | the bookmarks gathered are exactly the detectors' results that fired |
| Bookmark.Found | telemetry/bookmark.go:63-91 | no bookmark while the buffer is empty; otherwise each bookmark carries the window end tick, they come in detector order, and each of the five kinds appears exactly when its detector fired |
| Bookmark.OrderedKinds | telemetry/bookmark.go:63-91 | collecting results tagged with their detector position keeps them in detector order and keeps their ticks |
| Bookmark.Track | telemetry/bookmark.go:93-102 | after the row is added, the predator low drops to the current count (a zero low is always replaced) and the prey peak rises to it; the stable run is as the detector left it |
| Bookmark.Check | telemetry/bookmark.go:63-105 | the row is added to the buffer, bookmarks are empty on the first check, carry the window end tick and come in detector order; each kind is present exactly when the buffer holds history and its check (hunt, forage, recovery, crash, stable) fires on this row; afterwards the low is at most and the peak at least the current counts, and a recovery or crash resets them to the current count |
| Bookmark.CheckAll | telemetry/bookmark.go:63-105 | checking a run of rows keeps the detector well formed and its size |
| Bookmark.CheckAllHolds | telemetry/bookmark.go:63-105 | after checking a run of rows the buffer represents the whole log of rows checked |
| Bookmark.CheckExtendsLog | telemetry/bookmark.go:63-105 | one check appends its row to the log the buffer represents |
| Bookmark.FreshHistory | telemetry/bookmark.go:107-120 | from a fresh detector, the history is the rows checked so far until the buffer wraps, and afterwards the buffer holding each of the last size rows at position (index mod size) |
| Bookmark.Chronological | telemetry/bookmark.go:115-120 | the buffer read oldest first: before the first wrap exactly what getHistory returns; afterwards slot (write index + k) mod size in position k |
| Bookmark.ChronologicalIsRecentLog | telemetry/bookmark.go:107-120 | read oldest first, the buffer is the whole log before the first wrap and exactly the last size rows of the log, in order, afterwards |
| Bookmark.ChronologicalWindowIsRecent | telemetry/bookmark.go:247-250 | the corrected stability test reads exactly the four most recent rows of the log |
| Bookmark.StableWindowNotRecent | telemetry/bookmark.go:247-250 | with five slots and six rows, the last four entries of getHistory end with row 4 while the most recent row is row 5 |
| HallOfFame.NewHall | telemetry/halloffame.go:38-48 | one empty hall per archetype, with the given capacity |
| HallOfFame.ChildrenAloneQualify | telemetry/halloffame.go:96-99 | reaching the minimum number of children qualifies an organism whatever else it did |
| HallOfFame.EntryCriteriaMonotone | telemetry/halloffame.go:91-110 | an organism at least as good on children, survival, kills and foraging as one that qualifies also qualifies |
| HallOfFame.FitnessMonotone | telemetry/halloffame.go:113-128 | with non-negative weights, an organism at least as good on every statistic has at least the fitness of the other |
| HallOfFame.SearchSplits | telemetry/halloffame.go:133-136 | on a hall sorted by descending fitness, every entry before the insertion point has fitness at least the new one's and every entry from it on has less |
| HallOfFame.Search | telemetry/halloffame.go:133-136 | the insertion point is a position of the hall, from 0 to its length |
| HallOfFame.InsertEntry | telemetry/halloffame.go:132-154 | a hall within capacity stays within it, grows by at most one entry, and keeps every entry before the insertion point in place |
| HallOfFame.InsertKeepsOrder | telemetry/halloffame.go:132-154 | inserting into a hall sorted by descending fitness keeps it sorted |
| HallOfFame.FullHallRejectsLowest | telemetry/halloffame.go:138-141 | a full hall whose every entry is at least as fit as the newcomer is returned unchanged |
| HallOfFame.InsertBelowCapacity | telemetry/halloffame.go:143-146 | below capacity the hall afterwards holds exactly its old entries plus the new one |
| HallOfFame.InsertAtCapacity | telemetry/halloffame.go:143-151 | at capacity, a newcomer fitter than the last entry enters and exactly that last entry is dropped |
| HallOfFame.GetHall | telemetry/halloffame.go:191-198 | an archetype with no hall reads as an empty hall |
| HallOfFame.TopFitness | telemetry/halloffame.go:202-208 | an empty hall has top fitness 0 |
| HallOfFame.TopFitnessIsBest | telemetry/halloffame.go:202-208 | in a well-formed hall of fame no entry of a hall is fitter than its top fitness |
| HallOfFame.Consider | telemetry/halloffame.go:52-88 | the organism is reported added exactly when it meets the entry criteria; only its founder archetype's hall changes, by inserting its entry with its computed fitness, and an unknown archetype changes nothing |
| HallOfFame.ConsiderPreservesValid | telemetry/halloffame.go:52-88 | considering an organism keeps every hall sorted and within capacity |
| HallOfFame.Tournament | telemetry/halloffame.go:164-174 | the winner is one of the drawn candidates, none of the candidates is fitter, and every earlier draw is strictly less fit, so ties go to the first draw |
| HallOfFame.Sample | telemetry/halloffame.go:158-183 | an empty hall gives nothing; otherwise the weights of the fittest of the first min(3, size) drawn entries, the first such draw on a tie |
| HallOfFame.HallStats | telemetry/halloffame.go:211-221 | one size and one top fitness per archetype, agreeing with Size and TopFitness |
| Perf.NewPerfCollector | telemetry/perf.go:45-54 | a window of the requested size (60 when it is below 1), no samples yet, no phases open and no frame seen |
| Perf.StartTick | telemetry/perf.go:57-61 | a tick starts at the given time with no phase timings and no open phase; the recorded samples are untouched |
| Perf.Accumulate | telemetry/perf.go:68 | adding time to a phase adds it to that phase's total (from zero for a new phase) and leaves every other phase as it was |
| Perf.ClosePhase | telemetry/perf.go:66-69 | with no open phase nothing changes; otherwise the open phase is charged the time since it started |
| Perf.StartPhase | telemetry/perf.go:64-72 | the open phase, if any, is charged the time since it started, other phases keep their totals, and the new phase becomes the open one from now |
| Perf.EndTick | telemetry/perf.go:75-92 | the sample for this tick (duration since its start, phase totals with the open phase closed) is written at the write index, the index advances modulo the window, and the sample count grows up to the window size |
| Perf.RecordFrame | telemetry/perf.go:95-101 | the frame time is remembered; from the second frame on, the frame duration is the time since the previous frame |
| Perf.NewPerfCollectorHoldsEmptyLog | telemetry/perf.go:45-54 | a fresh collector's window represents the empty log of samples |
| Perf.EndTickHolds | telemetry/perf.go:75-92 | ending a tick appends its sample to the log of samples the ring buffer represents |
| Perf.WindowIsRecentSamples | telemetry/perf.go:75-92 | before the window fills the first sampleCount slots are the log in order; afterwards every slot is in use and holds each of the last windowSize samples at position (index mod size) |
| Perf.MinTick | telemetry/perf.go:150-152 | the minimum tick duration is one of the samples' and no sample is shorter |
| Perf.MaxTick | telemetry/perf.go:153-155 | the maximum starts from zero: it is at least 0, no sample is longer, and it is 0 or one of the samples' |
| Perf.TickTotalBetween | telemetry/perf.go:141-162 | a total of durations each between lo and hi lies between n times lo and n times hi, which puts the average between the minimum and the maximum |
| Perf.PhaseKeys | telemetry/perf.go:157-159 | the phases summed are exactly those appearing in some sample |
| Perf.PerSecond | telemetry/perf.go:127-130 | a rate per second is 0 for a non-positive duration, otherwise positive with rate times duration equal to one second |
| Perf.Percentages | telemetry/perf.go:167-172 | percentages exist only when the average tick is positive, then one per phase with percentage times average tick equal to 100 times the phase average |
| Perf.StatsOf | telemetry/perf.go:125-190 | over the samples in the window: no samples gives zeros and empty maps; otherwise min, average and max are ordered, every sample lies between min and max, both are attained, the average is the truncated total over the count, phase averages cover exactly the phases seen; fps and frame duration come from the last frame gap |
| Perf.ScanTicks | telemetry/perf.go:146-156 | one pass over the samples gives the tick total, the minimum and the maximum |
| Perf.Stats | telemetry/perf.go:125-190 | the statistics computed by the loops are those of the valid samples in the window |
| Energy.Lerp | systems/energy.go:59-61 | interpolation gives a at t = 0 and b at t = 1 |
| Energy.LerpBetween | systems/energy.go:59-61 | for t in [0, 1] the interpolated value lies between the two endpoints |
| Energy.SpeedRatioSq | systems/energy.go:35-41 | the squared speed ratio charged for movement is never negative |
| Energy.UpdateEnergy | systems/energy.go:10-56 | a dead organism is untouched; a living one ages by dt, pays the metabolic cost, and dies with energy 0 exactly when the cost takes it to 0 or below; a survivor keeps positive energy |
| Energy.MetabolismNeverGains | systems/energy.go:10-56 | with non-negative costs, diet in [0, 1] and dt >= 0 the metabolic cost is non-negative, so an update never raises energy |
| Energy.GrazingEfficiency | systems/energy.go:65-74 | 0 without a cap; in [0, 1] for a non-negative diet; full for a pure herbivore and 0 at or beyond the cap |
| Energy.GrazingEfficiencyMonotone | systems/energy.go:65-74 | a more carnivorous diet never grazes better |
| Energy.HuntingEfficiency | systems/energy.go:78-87 | 0 below the floor, in [0, 1] between the floor and a full carnivore, 1 for a full carnivore |
| Energy.HuntingEfficiencyMonotone | systems/energy.go:78-87 | a more carnivorous diet never hunts worse |
| Energy.ForageEfficiency | systems/energy.go:102-114 | the efficiency stays within [0, 1], is exactly 1 at speed peak * maxSpeed, and with the speed ratio capped at 1 is 0 exactly when that ratio lies half a unit or more from the peak and positive otherwise |
| Energy.ForageEfficiencyUnimodal | systems/energy.go:102-114 | the efficiency never falls as speed rises toward the grazing speed, never rises as speed grows past it, and no speed beats the grazing speed |
| Energy.UpdatePreyForage | systems/energy.go:91-123 | a dead organism is untouched; a living one gains resource times rate times efficiency times dt, capped at its maximum, with nothing else changed |
| Energy.TransferEnergy | systems/energy.go:140-185 | nothing moves unless both are alive; then the prey loses the amount or all it has, the removed energy splits exactly into predator gain, detritus and heat, the predator is capped at its maximum with the excess reported as overflow, the total of energy is conserved, and the prey dies at 0 |
| Energy.TransferFlowsNonNegative | systems/energy.go:155-160 | with efficiency and detritus fraction in [0, 1] and a non-negative amount, every flow of a transfer is non-negative |
| Sensors.FurthestIndex | systems/sensors.go:103-110 | the farthest slot of a full bin: no slot is farther, and it is the first slot with that distance |
| Sensors.Insert | systems/sensors.go:94-115 | a bin with room appends the neighbour; a full bin keeps at most TopKPerSector entries, replaces its farthest entry only by a strictly closer neighbour, and is otherwise unchanged |
| Sensors.InsertNeverWidens | systems/sensors.go:94-115 | inserting into a full bin never makes its farthest kept distance larger |
| Sensors.InsertKeepsIffCloser | systems/sensors.go:111-114 | a full bin changes only for a neighbour closer than some kept entry, and such a neighbour is always kept |
| Sensors.InsertKeepsNearest | systems/sensors.go:94-115 | if the kept entries were all at least as near as every neighbour dropped so far, that remains true after one more insertion |
| Sensors.InsertConserves | systems/sensors.go:94-115 | one insertion keeps or evicts exactly one distance: kept plus evicted equals the old kept entries plus the new one |
| Sensors.InsertAllKeepsNearest | systems/sensors.go:94-115 | after any run of insertions the bin keeps the nearest neighbours seen, every dropped one being at least as far as every kept one |
| Sensors.InsertAllConserves | systems/sensors.go:94-115 | after any run of insertions the kept and the dropped distances together are exactly the distances inserted |
| Sensors.EmptyBinKeepsNearest | systems/sensors.go:94-115 | from an empty bin, a run of insertions keeps a subset of the inserted distances nearest to the viewer, and drops exactly the rest |
| Sensors.SumLoop | systems/sensors.go:118-124 | the bin sum adds the weights of the first count slots only, and an empty bin sums to 0 |
| Sensors.MinDist | systems/sensors.go:127-138 | an empty bin has minimum distance 0; otherwise the square root of the least kept squared distance |
| Sensors.MinDistLoop | systems/sensors.go:127-138 | the loop over the kept slots yields the bin's minimum distance |
| Sensors.MinOfSnoc | systems/sensors.go:132-136 | extending the scanned slots by one keeps the running minimum or replaces it with a strictly smaller new distance |
| Sensors.ResetCount | systems/sensors.go:150-156 | every bin of a row is emptied and nothing else in it changes |
| Sensors.Clear | systems/sensors.go:150-156 | all three rows of NumSectors bins are emptied, so every bin sums to 0 |
| Sensors.FillSlice | systems/sensors.go:176-196 | the input vector has NumInputs entries: food in sectors 0-7, threat in 8-15, kin in 16-23, then energy, speed and diet |
| Sensors.TaylorExpMonotone | systems/sensors.go:579-583 | the cubic Taylor denominator is at least 1 and grows with x on non-negative inputs |
| Sensors.SmoothSaturate | systems/sensors.go:571-584 | 0 for x <= 0, 1 for x > 5, strictly between 0 and 1 in between, always in [0, 1] |
| Sensors.SaturateInterior | systems/sensors.go:583 | for positive x the saturation formula lies strictly between 0 and 1 |
| Sensors.SmoothSaturateMonotone | systems/sensors.go:571-584 | saturation is monotone, including across the cut-offs at 0 and 5 |
| SectorVision.NormalizeAngleFull | systems/sensors.go:548-557 | any angle is brought into [-pi, pi], and an angle already there is unchanged |
| SectorVision.RawSector | systems/vision.go:32-34 | the rounded sector of a normalised angle is between 0 and NumSectors and its centre is within half a sector width of the angle |
| SectorVision.SectorIndexFromAngle | systems/vision.go:30-40 | the sector index is in [0, NumSectors) and its centre is within half a sector of the normalised angle, the sector just below +pi wrapping to sector 0 |
| SectorVision.SectorOfCenter | systems/vision.go:30-40 | each sector's centre angle maps back to that sector |
| SectorVision.VisionEffectivenessForSector | systems/vision.go:42-53 | an out-of-range sector gets the minimum effectiveness; otherwise weight 0 gives the minimum, weight 1 gives 1, and weights in [0, 1] give a value in [minimum, 1] |
| SectorVision.RaiseBetween | systems/vision.go:52 | raising min by (1 - min) times a weight in [0, 1] stays within [min, 1] |
| SectorVision.ZoneEffectiveness | systems/vision.go:75-90 | the zone value is the largest of 0 and the values of the zones covering the angle: no covering zone offers more, and a non-zero result is some covering zone's value |
| SectorVision.LoadVisionWeights | systems/vision.go:56-72 | always NumSectors weights in [0, 1]; a list of the exact length is clamp01'd slot by slot (an in-range weight kept, one above 1 cut to 1, one below 0 raised to 0); otherwise no zones gives all 0 and zones give each sector clamp01 of the best covering zone value at the sector centre, 0 exactly when no zone offers anything |
| SectorVision.LoadedEffectivenessBetween | systems/vision.go:42-72 | with loaded weights, every sector's effectiveness lies in [minimum, 1] |
| SectorVision.NormalizeAngleOnce | systems/sensors.go:538-545 | one turn of correction at most: the result is the angle or one turn off it, inside [-pi, pi] for angles within one turn of that range, and unchanged inside it |
| SectorVision.NormalizeAngleFormsAgree | systems/sensors.go:538-545 | for every angle within one turn of [-pi, pi] the single-step normalizeAngle of sensors.go equals the loop normalizeAngle of math.go |
| SectorVision.NormalizeAngleFormsDiffer | systems/sensors.go:538-545 | at three and a half turns the single-step form stays above pi while the loop form is in range, so the choice of form matters only for angles more than one turn out |
| ConeVision.AngleToCone | neural/vision.go:126-151 | after wrapping the angle: Front exactly within pi/4 of ahead, Back exactly from 3pi/4 on, Right exactly strictly between pi/4 and 3pi/4 on the positive side, Left exactly the mirror range |
| ConeVision.ConeCenter | neural/vision.go:154-167 | every cone centre is an angle in [-pi, pi] |
| ConeVision.ConeOfCenter | neural/vision.go:126-167 | each cone's centre angle falls in that cone |
| ConeVision.AngleToConePeriodic | neural/vision.go:126-151 | a full turn does not change the cone of an angle |
| ConeVision.ClampVision | neural/vision.go:341-349 | the output lies in [0, MaxConeIntensity], equals the input inside it and the nearer bound outside |
| ConeVision.LogNormalize | neural/vision.go:368-375 | 0 for non-positive input and 1 at MaxConeIntensity |
| ConeVision.LogNormalizeInUnit | neural/vision.go:368-375 | for any increasing logarithm-like function, inputs in [0, MaxConeIntensity] map into [0, 1], monotonically |
| ConeVision.Pow4 | neural/vision.go:311 | the fourth power of an alignment in [0, 1] stays in [0, 1] |
| ConeVision.Alignment4 | neural/vision.go:306-311 | a sensor's alignment weight to a cone is non-negative and at most 1 when the cosine is |
| ConeVision.Strengths | neural/vision.go:280-283 | the strengths of the sensor cells, position by position |
| ConeVision.ConeCoverage | neural/vision.go:293-315 | a cone's summed sensor coverage is non-negative |
| ConeVision.SensorShare | neural/vision.go:294-313 | one sensor adds a non-negative share to a cone, at most its own strength |
| ConeVision.CoverageAtMostTotal | neural/vision.go:293-315 | with non-negative strengths, no cone collects more coverage than the total strength |
| ConeVision.SensorConeWeights | neural/vision.go:269-327 | one weight per cone; 0.3 everywhere without sensors or with a total strength under 0.01; never below 0.1 |
| ConeVision.SensorWeightsInRange | neural/vision.go:269-327 | with non-negative strengths every cone weight lies in [0.1, 1] |
| ConeVision.FoodRelevance | neural/vision.go:220-234 | food relevance is in [0, 1] and is the threat I pose to the entity, flora counting as composition 1 |
| ConeVision.FriendRelevance | neural/vision.go:247-251 | friend relevance is in [0, 1] and 1 for fauna at genetic distance 0 |
| ConeVision.Contribution | neural/vision.go:184-256 | an entity beyond the effective radius contributes nothing; one that does lands in a cone and adds non-negative food, threat and friend amounts |
| ConeVision.AddHit | neural/vision.go:253-256 | adding a hit keeps one value per cone |
| ConeVision.Accumulate | neural/vision.go:184-257 | the accumulated cones have one non-negative value each for food, threat and friend |
| ConeVision.OutOfRangeIgnored | neural/vision.go:190-192 | adding an entity beyond the effective radius changes nothing |
| ConeVision.ClampCones | neural/vision.go:259-264 | every cone value is clamped to [0, MaxConeIntensity], slot by slot |
| ConeVision.ScanEntities | neural/vision.go:171-265 | every food, threat and friend cone lies in [0, MaxConeIntensity] and is that channel's accumulated value capped at the maximum; no entities give all-zero cones |
| ConeVision.NormalizeForBrain | neural/vision.go:353-365 | each cone value is log-normalised, slot by slot |
| ConeVision.BrainInputsInUnit | neural/vision.go:171-365 | the scanned and normalised cone values handed to the brain all lie in [0, 1] |
| ConeVision.SampleDirectionalLight | neural/vision.go:45-72 | one light level per cone: 0.5 everywhere without a sampler, otherwise the sampler's value at the point at the sample distance in that cone's direction |
| ConeVision.Gradient | neural/vision.go:82-92 | a gradient is 0 between equal levels, strictly inside (-1, 1) for non-negative levels, and positive exactly when the first level is higher |
| ConeVision.GradientBounds | neural/vision.go:82-92 | with the epsilon in the denominator the normalised difference is strictly inside (-1, 1) and has the sign of the difference |
| ConeVision.LightGradients | neural/vision.go:82-92 | for non-negative light levels both gradients are in (-1, 1); front-back is positive exactly when the front is brighter, right-left exactly when the right is |
| ConeVision.UniformLightHasNoGradient | neural/vision.go:45-92 | without a sampler, the uniform light gives no gradient in either direction |
| Reproduction.NextID | neural/reproduction.go:38-42 | the id handed out is below the generator's next id afterwards, and the innovation counter is untouched |
| Reproduction.NextInnovation | neural/reproduction.go:45-49 | the innovation number handed out is below the next one afterwards, and the id counter is untouched |
| Reproduction.TakeIDsIncreasing | neural/reproduction.go:38-42 | n calls hand out the n consecutive ids from the current one, strictly increasing, and advance the counter by n |
| Reproduction.FreshIDsStartAtOne | neural/reproduction.go:30-42 | a new generator hands out ids 1, 2, 3, ... |
| Reproduction.TakeInnovationsIncreasing | neural/reproduction.go:30-49 | n calls hand out n consecutive innovation numbers from the current one and leave the id counter alone; a new generator starts at 1000 |
| Reproduction.ClampWeight | neural/reproduction.go:198-206 | the weight is clamped to [-8, 8]: unchanged inside, the nearer bound outside |
| Reproduction.KeySplit | neural/reproduction.go:336-338 | for ids below 2^32 the key's high half is the input id and its low half the output id |
| Reproduction.ConnectionKeyInjective | neural/reproduction.go:336-338 | for ids below 2^32 distinct connections get distinct keys |
| Reproduction.NegativeOutHidesIn | neural/reproduction.go:336-338 | a negative output id (all ones once widened) hides the input id: every input gives the same key |
| Reproduction.ToggleEnable | neural/reproduction.go:340-363 | only the picked gene may change and it keeps its output node; a disabled gene becomes enabled, an enabled one is disabled exactly when another enabled gene still feeds its output |
| Reproduction.ToggleKeepsOutputsFed | neural/reproduction.go:340-363 | a node fed by an enabled gene before the toggle is still fed by one afterwards |
| Reproduction.GeneMap | neural/reproduction.go:544-553 | the innovation map has exactly the genes' innovation numbers as keys |
| Reproduction.MaxInnov | neural/reproduction.go:555-568 | the largest innovation number, starting from 0: at least 0, no gene above it, and 0 or some gene's number |
| Reproduction.DistinctInnovs | neural/reproduction.go:576-595 | each innovation number of the map, listed once |
| Reproduction.WeightDiff | neural/reproduction.go:576-579 | the summed absolute weight differences are non-negative, and 0 for identical maps |
| Reproduction.Counts | neural/reproduction.go:570-595 | matching counts the innovations both genomes have; disjoint plus excess counts those only one has |
| Reproduction.CountsSymmetric | neural/reproduction.go:570-595 | swapping the genomes keeps the matching count and the number of non-matching genes |
| Reproduction.GenomeCompatibility | neural/reproduction.go:539-610 | a missing genome gives the largest float; with non-negative coefficients two genomes are at a non-negative distance |
| Reproduction.SizeScale | neural/reproduction.go:597-601 | the size normaliser is at least 1: the larger genome length, or 1 below 20 genes |
| Reproduction.Distance | neural/reproduction.go:603-609 | no excess, no disjoint and no weight difference give distance 0; non-negative coefficients give a non-negative distance |
| Reproduction.MeanDiff | neural/reproduction.go:603-606 | the average weight difference is non-negative for a non-negative total and 0 for a zero total or no matches |
| Reproduction.SelfCompatibilityIsZero | neural/reproduction.go:539-610 | a genome is at distance 0 from itself |
| Species.NewManager | neural/species.go:27-33 | a new manager has no species and will hand out id 1 first |
| Species.FirstAccepting | neural/species.go:43-54 | the species chosen is the first whose representative is set and within the compatibility threshold; none before it accepts |
| Species.AssignSpecies | neural/species.go:37-68 | a missing genome gets 0 and changes nothing; a genome some species accepts gets the first such species' id with nothing changed; otherwise a new empty species with the next id and this genome as representative is appended and the counter advances |
| Species.NewSpeciesIdsCountUp | neural/species.go:56-67 | a new species takes the next id, above every existing species' id, and the counter moves up by one |
| Species.GetSpeciesForGenome | neural/species.go:185-202 | a missing genome gets 0; otherwise 0 exactly when no species accepts the genome, else the id of an accepting species |
| Species.GetAgreesWithAssign | neural/species.go:37-54 | when the lookup finds a species, assignment returns the same id and creates nothing |
| Species.IndexOf | neural/species.go:72-76 | the position of the first species with the id, or past the end when none has it |
| Species.AddMember | neural/species.go:71-78 | the entity is appended to the members of the species with the matching id; every other species is unchanged |
| Species.Find | neural/species.go:84-85 | the first position holding the entity, or past the end |
| Species.SwapRemove | neural/species.go:84-91 | an absent entity changes nothing; a present one loses exactly one occurrence, the list shrinking by one |
| Species.SwapRemoveMultiset | neural/species.go:86-88 | moving the last member into the gap and dropping the last slot removes exactly the member at the gap |
| Species.RemoveMember | neural/species.go:81-95 | only the species with the matching id changes, losing one occurrence of the entity |
| Species.UpdateFitness | neural/species.go:98-108 | best fitness never drops; it rises only for the matching species, whose staleness is then reset; a species whose best did not rise is unchanged |
| Species.RemoveStale | neural/species.go:153-165 | exactly the species with members and staleness below the drop-off age are kept |
| Species.RemoveStaleIsSubsequence | neural/species.go:153-165 | the kept species keep their relative order |
| Species.RemoveStaleSpecies | neural/species.go:153-165 | the manager keeps exactly the species with members and staleness below the drop-off age, with distinct ids and the same id counter |
| Species.Older | neural/species.go:137-140 | every species ages by one generation and grows one more stale |
| Species.EndGeneration | neural/species.go:136-150 | after ageing, exactly the aged species with members and staleness below the drop-off age survive |
| Species.MemberCountUpdate | neural/species.go:126-132 | replacing one species changes the member total by the difference of their member counts |
| Species.AddMemberCounts | neural/species.go:71-78 | adding to an existing species raises the member total by one |
| Species.RemoveMemberCounts | neural/species.go:81-95 | removing a present member lowers the total by one; otherwise the total is unchanged |
| Species.UpdateRepresentatives | neural/species.go:169-182 | every species keeps its id and loses its members; its representative becomes its first member's genome when that exists and is otherwise kept |
| Species.Largest | neural/species.go:226-240 | the largest size is at least 0, no species is bigger, and with any species it is some species' size |
| Species.Smallest | neural/species.go:226-240 | the smallest size starts from the largest int: no species is smaller, and it is that start or some species' size |
| Species.SmallestSize | neural/species.go:233-246 | the smallest size after the MaxInt sentinel is reset to 0: at least 0, no species is smaller, and some species' size whenever no size reaches MaxInt |
| Species.MeanStaleness | neural/species.go:237-242 | the mean staleness times the species count is the total staleness (0 without species) |
| Species.GetStats | neural/species.go:214-249 | no species gives the zero statistics; otherwise the count, the member total, and smallest <= every size <= largest; the largest is the size of some species, so is the smallest whenever no size reaches MaxInt (the source's sentinel), and the average staleness is the total staleness over the count |
| Species.GetStatsUniformStaleness | neural/species.go:225-242 | when every species has the same staleness, the average staleness is that value |
| Species.TotalStalenessUniform | neural/species.go:225-238 | species that all share one staleness total that staleness times their count |
| Species.CalculateFitness | neural/species.go:264-275 | undefined (None) exactly when the maximum energy is 0; zero energy or zero survival time gives 0; non-negative inputs with a positive maximum give a non-negative fitness |
| Species.FitnessOffspringBonus | neural/species.go:264-275 | each offspring adds half of the childless fitness: the fitness is the childless fitness times 1 + 0.5 per offspring |
| Species.FitnessMonotone | neural/species.go:264-275 | with a positive maximum and non-negative energy, more survival ticks or more offspring never lower the fitness |
| Species.FitnessExample | neural/species.go:264-275 | full energy over a thousand ticks scores 1, two offspring double it, half energy over 500 ticks scores 0.25 |
| Species.CalculateBreedingFitness | neural/species.go:279-285 | undefined (None) exactly when the maximum energy is 0; zero energy gives 0; with a positive maximum and non-negative inputs it is never below the bare energy ratio |
| Species.BreedingFitnessMonotone | neural/species.go:279-285 | with a positive maximum, more energy or more cells never lower breeding fitness |
| Ffnn.LayerSizes | neural/ffnn.go:33-37 | the layer list is the input count, the hidden sizes in order, then the output count |
| Ffnn.NewFFNN | neural/ffnn.go:32-73 | the new network has layers [NumInputs, hidden..., NumOutputs], one weight matrix per consecutive pair of layers, every bias 0 except the output biases (0, 0, -2) |
| Ffnn.InitMatrix | neural/ffnn.go:53-60 | a layer's weight matrix has one row per output neuron and one column per input neuron |
| Ffnn.InitWeights | neural/ffnn.go:46-63 | one matrix per consecutive pair of layers, shaped fanOut by fanIn |
| Ffnn.InitBiases | neural/ffnn.go:54-70 | one bias per output neuron of each layer, all 0, except the output layer's (0, 0, -2) |
| Ffnn.Zeros | neural/ffnn.go:54 | a freshly made slice of n zeros |
| Ffnn.HiddenLayerSizes | neural/ffnn.go:355-360 | empty for two layers or fewer; otherwise the sizes between the input and output layers |
| Ffnn.NewFFNNHiddenSizes | neural/ffnn.go:32-73 | a new network reports exactly the hidden sizes it was built with |
| Ffnn.TotalHidden | neural/ffnn.go:363-369 | the hidden neuron total is non-negative and at least each hidden size |
| Ffnn.TotalHiddenNeurons | neural/ffnn.go:363-369 | 0 for a network with no hidden layer, never negative for a well-shaped one |
| Ffnn.Saturate01 | neural/ffnn.go:116-124 | the output lies in [0, 1], equals the input inside it and the nearer bound outside |
| Ffnn.RationalBetween | neural/ffnn.go:284-285 | on [-3, 3] the rational approximation stays within [-1, 1] |
| Ffnn.RationalOdd | neural/ffnn.go:284-285 | the rational approximation is odd |
| Ffnn.TanhAsWritten | neural/ffnn.go:277-286 | as written: 1 above 4 and -1 below -4, the rational formula in between |
| Ffnn.TanhOvershoots | neural/ffnn.go:277-286 | as written, tanh(3.5) exceeds 1 |
| Ffnn.Tanh | neural/ffnn.go:277-286 | the corrected tanh lies in [-1, 1], saturates beyond 3, agrees with the formula on [-3, 3] and has the sign of its input |
| Ffnn.TanhOdd | neural/ffnn.go:277-286 | the corrected tanh is odd |
| Ffnn.TanhSign | neural/ffnn.go:277-286 | the corrected tanh is positive exactly for positive input |
| Ffnn.Activate | neural/ffnn.go:86-92 | a hidden layer gives one activation per neuron, each in [-1, 1] |
| Ffnn.Capture | neural/ffnn.go:82-94 | the first n hidden layers' activations, each of its layer's size and in [-1, 1] |
| Ffnn.LastHidden | neural/ffnn.go:79-94 | the last hidden activations are no longer than the last hidden layer |
| Ffnn.RawOutputs | neural/ffnn.go:96-105 | each raw output is its bias plus the dot product of its weight row with the last hidden activations |
| Ffnn.Forward | neural/ffnn.go:77-113 | turn lies in [-1, 1] and has the sign of its raw output; thrust and bite lie in [0, 1], thrust is 1 exactly when its raw output is at least 1 and bite 0 exactly when its raw output is at most -1 |
| Ffnn.ForwardWithCapture | neural/ffnn.go:134-187 | the captured run gives the same outputs as Forward, records the inputs, every hidden layer's activations, and the activated outputs |
| Ffnn.HiddenLoop | neural/ffnn.go:82-94 | the hidden loop computes every hidden layer in turn |
| Ffnn.LayerLoop | neural/ffnn.go:86-92 | the neuron loop computes the layer's activations |
| Ffnn.OutputLoop | neural/ffnn.go:99-105 | the output loop computes bias plus dot product for each of the three outputs |
| Ffnn.DotLoop | neural/ffnn.go:88-90 | the inner loop computes the dot product over the current activations |
| Ffnn.SparseDelta | neural/ffnn.go:213-219 | a weight mutates exactly when its draw is below the rate; then the big sigma applies when the second draw is below the big rate, the normal sigma otherwise |
| Ffnn.Fired | neural/ffnn.go:206-223 | the number of mutations applied is at most the number of draws and 0 exactly when none fired |
| Ffnn.TotalAbsBounds | neural/ffnn.go:221-235 | the summed absolute deltas are non-negative and at most the count times the largest |
| Ffnn.AvgAbsDelta | neural/ffnn.go:240-243 | the average absolute delta is 0 when nothing fired, otherwise in [0, the largest delta] |
| Ffnn.Flatten | neural/ffnn.go:308-313 | a matrix flattens row-major: fanIn times fanOut entries, with row j, column k at index j*fanIn+k |
| Ffnn.RowMajorIndex | neural/ffnn.go:311 | index j*fanIn+k of a fanOut by fanIn matrix is in range and divides back into j and k |
| Ffnn.FlatLayer | neural/ffnn.go:304-313 | each layer's flattened weights hold its matrix row-major |
| Ffnn.MarshalWeights | neural/ffnn.go:296-321 | the layer sizes and biases are copied and every weight matrix is flattened row-major |
| Ffnn.CopyInto | neural/ffnn.go:348-350 | copying into a fresh slice of length n takes the source where it reaches and leaves zeros after it |
| Ffnn.Unflatten | neural/ffnn.go:338-346 | each row j, column k is read from index j*fanIn+k when the flat list reaches it and is 0 otherwise |
| Ffnn.UnflatLayer | neural/ffnn.go:331-346 | each layer's matrix is unflattened from its flat list, missing entries read as 0 |
| Ffnn.UnmarshalWeights | neural/ffnn.go:324-352 | the restored network has the stored layer sizes and a fanOut by fanIn matrix and fanOut biases per layer |
| Ffnn.MarshalRoundTrip | neural/ffnn.go:296-352 | unmarshalling the marshalled weights of a well-shaped network restores its layers, weights and biases exactly |
| Ffnn.NewFFNNRunnable | neural/ffnn.go:32-113 | a new network can run Forward on any input vector of NumInputs values |
| Grid.Fract | systems/particle_resource.go:1343-1350 | the fractional part lies in [0, 1]: x minus its floor, below 1, except that a negative whole number gives exactly 1 |
| Grid.ModInt | systems/particle_resource.go:1370-1376 | Go's remainder shifted into [0, m), the identity on [0, m) |
| Grid.ModIntIsEuclidean | systems/resource_field.go:515-521 | the shifted remainder is the mathematical remainder for every integer, negative ones included |
| Grid.Wrap | systems/particle_resource.go:1352-1368 | the identity on [0, max); any x within two widths of the box lands in [0, max); the result is always x shifted by at most two widths |
| Grid.CellIndexInRange | systems/particle_resource.go:649-652 | the row-major index of an on-grid cell lies in [0, w*h) |
| Grid.PosTotal | systems/particle_resource.go:667-706 | the positive amounts add up to a non-negative total |
| Grid.PosTotalOfNonNegative | systems/particle_resource.go:667-706 | for non-negative amounts the positive total is the plain total |
| Grid.ScaleTotal | systems/particle_resource.go:656-659 | scaling every weight by a mass scales their total by that mass |
| Grid.AddAll | systems/resource_field.go:210-252 | uncapped deposits raise the grid total by exactly the amounts, leave untouched cells alone, and never lower a cell for non-negative amounts |
| Grid.PutAll | systems/particle_resource.go:663-708 | capped deposits add each positive amount up to the room left below the capacity: the deposit is between 0 and the positive amounts, the grid total grows by exactly the deposit, no cell is lowered, a cell at or below capacity stays there, untouched cells keep their value |
| Grid.Taken | systems/particle_resource.go:759-778 | one removal takes at most the positive part of the amount and at most the cell, and never a negative amount from a non-negative cell or under the guard |
| Grid.TakenAgree | systems/resource_field.go:334-341 | from a non-negative cell the guarded and the unguarded removal take the same |
| Grid.RemovalSum | systems/particle_resource.go:757-779 | the grid total drops by exactly what the removals report taken |
| Grid.RemovalUntouched | systems/particle_resource.go:757-779 | cells no removal touches keep their value |
| Grid.RemovalLowers | systems/resource_field.go:319-344 | guarded removals, or any removals from a non-negative grid, never raise a cell, keep non-negative cells non-negative, and take between 0 and the positive amounts |
| Grid.TakeAll | systems/particle_resource.go:712-780 | bounded removals lower the grid total by exactly what they take; on a non-negative grid no cell is raised or goes negative and the amount taken is between 0 and the positive amounts |
| Grid.TakeGuarded | systems/resource_field.go:292-345 | guarded removals lower the grid total by exactly what they take, take between 0 and the positive amounts, raise no cell and keep non-negative cells non-negative, with no assumption on the grid |
| Grid.TakeRulesAgree | systems/resource_field.go:334-341 | on a non-negative grid the guarded and the bounded removal rules coincide |
| Grid.RemovalRulesAgree | systems/resource_field.go:334-341 | on a non-negative grid a run of removals is the same under both rules |
| Grid.Corners | systems/particle_resource.go:613-652 | the four bilinear corners are on the grid, each weight is in [0, 1], and the weights add up to 1 |
| Grid.WeightsInUnit | systems/particle_resource.go:624-628 | for fractions in [0, 1] the four bilinear weights lie in [0, 1] and add up to 1 |
| Grid.Offsets | systems/resource_field.go:306-307 | the kernel visits (2r+1)^2 offsets, each coordinate within r, and none for a negative radius |
| Grid.OffsetsHaveCentre | systems/resource_field.go:306-314 | the centre offset (0, 0) is among those visited |
| Grid.TentSum | systems/resource_field.go:305-314 | the weight sum is non-negative and at least every single positive tent weight |
| Grid.TentSumPositive | systems/resource_field.go:305-317 | the kernel weight sum is positive exactly when the radius is not negative |
| Grid.SharesAdd | systems/resource_field.go:330 | shares of the same want add up as their weights do |
| Grid.GrazeCells | systems/resource_field.go:319-343 | the visited cells are on the grid, each positive-weight cell asks for a positive share when want and sum are positive, and the shares add up to want times the visited weight over the sum |
| Grid.GrazeSharesTotal | systems/resource_field.go:292-345 | with the weight sum taken over the same kernel, the cells' shares add up to exactly what was wanted |
| Grid.LerpBetween | systems/resource_field.go:383-385 | interpolating between values inside [lo, hi] with a fraction in [0, 1] stays inside |
| Grid.AxisOf | systems/resource_field.go:350-376 | both sampled cells of an axis are on the grid, the second is the next one modulo the size, and the fraction is in [0, 1) away from the fractional-position-1 case |
| Grid.ScaledFraction | systems/resource_field.go:353-357 | a fraction below 1 scaled to n cells truncates to a cell on the grid with a remainder in [0, 1) |
| Grid.NextWraps | systems/resource_field.go:366-373 | the neighbour cell, wrapped to 0 past the edge, is the next index modulo the size |
| Grid.SampleGrid | systems/resource_field.go:349-386 | away from the fractional-position-1 case the bilinear sample lies between the grid's minimum and maximum, and a uniform grid samples to its value everywhere |
| Grid.BilinearBetween | systems/resource_field.go:383-385 | bilinear interpolation of four values in [lo, hi] with both fractions in [0, 1] stays in [lo, hi] |
| Grid.BilinearUniform | systems/resource_field.go:383-385 | bilinear interpolation of four equal values gives that value |
| ParticleField.NewPool | systems/particle_resource.go:107-129 | a new pool has MaxCount slots (8000 when the configured count is below 1), none active, an empty free list and active list, and satisfies the pool invariant with high-water mark 0 |
| ParticleField.Spawn | systems/particle_resource.go:820-837 | a free-list slot is reused first (popped from the end); otherwise slot Count is taken while below MaxCount; the chosen slot becomes active with the given mass and is appended to the active list; a full pool is left unchanged |
| ParticleField.SpawnKeepsInv | systems/particle_resource.go:820-837 | spawn preserves the pool invariant: Count plus the free-list length equals the high-water mark, free slots are distinct, inactive and below it, and every active slot is listed |
| ParticleField.SpawnReusedKeepsInv | systems/particle_resource.go:820-837 | reusing a free-list slot keeps the invariant with the same high-water mark |
| ParticleField.SpawnFreshKeepsInv | systems/particle_resource.go:820-837 | taking the never-used slot Count raises the high-water mark by one and keeps the invariant |
| ParticleField.Despawn | systems/particle_resource.go:839-845 | despawn deactivates slot i, zeroes its mass, appends it to the free list and decrements Count; the active list and every other slot are unchanged |
| ParticleField.DespawnKeepsInv | systems/particle_resource.go:839-845 | despawning an active slot keeps the pool invariant with the same high-water mark |
| ParticleField.FreeListShort | systems/particle_resource.go:839-845 | distinct free slots below the high-water mark that exclude the slot being freed are fewer than the mark, so the free list never outgrows its capacity |
| ParticleField.ActiveMassUpdate | systems/particle_resource.go:1438-1446 | rewriting one slot changes the total particle mass by exactly the difference that slot carries |
| ParticleField.SpawnAddsMass | systems/particle_resource.go:820-837 | a spawn into an available slot adds exactly the new particle's mass to the particle total; into a full pool it adds nothing |
| ParticleField.DespawnRemovesMass | systems/particle_resource.go:839-845 | despawning an active slot removes exactly that particle's mass from the particle total |
| ParticleField.MarkDead | systems/particle_resource.go:1083-1090 | of the listed slots, exactly those still active with mass below the minimum are despawned; unlisted slots are untouched and no slot is revived |
| ParticleField.MarkDeadKeepsInv | systems/particle_resource.go:1083-1090 | the despawn pass keeps the pool invariant |
| ParticleField.KeepActive | systems/particle_resource.go:1093-1100 | the compacted list holds exactly the listed slots that are active, each active, and is no longer than the original |
| ParticleField.KeepActiveInOrder | systems/particle_resource.go:1093-1100 | compaction keeps the surviving entries in their original relative order |
| ParticleField.CleanupCompact | systems/particle_resource.go:1079-1103 | listed slots survive exactly when active with at least the minimum mass, unlisted slots keep their state, and the new active list is the order-preserving subsequence of active survivors |
| ParticleField.CleanupKeepsInv | systems/particle_resource.go:1079-1103 | compaction keeps the pool invariant and leaves every entry of the active list active |
| ParticleField.StepDetritus | systems/particle_resource.go:293-309 | mass is conserved: detritus lost equals resource gained plus heat; each cell's resource gain is eff times its detritus loss; non-positive detritus cells are untouched; with rate*dt in [0,1] detritus stays in [0, its old value] |
| ParticleField.DecayShares | systems/particle_resource.go:293-309 | the efficiency share and the heat share of a decayed amount add back to the whole amount |
| ParticleField.DecayBounds | systems/particle_resource.go:293-309 | decaying positive detritus by a rate in [0,1] leaves between 0 and the original amount |
| ParticleField.Spread | systems/particle_resource.go:612-651 | the four bilinear corners of a position lie inside the grid and their shares add up to exactly the mass, each non-negative for a non-negative mass |
| ParticleField.SplatToGrid | systems/particle_resource.go:608-709 | nothing happens for a non-positive mass; the grid total grows by exactly the deposited amount; without a cell capacity the whole mass is deposited; with one, between 0 and the mass is deposited and no cell at or below the capacity is pushed past it |
| ParticleField.RemoveFromGrid | systems/particle_resource.go:712-780 | nothing happens for a non-positive mass; the grid total drops by exactly the removed amount; on a non-negative grid no cell goes negative and at most the requested mass is removed |
| ParticleField.DepositDetritus | systems/particle_resource.go:280-285 | a non-positive amount deposits nothing; otherwise the whole amount lands on the detritus grid, is returned, and no cell decreases |
| ParticleField.GrazeCentre | systems/particle_resource.go:1111-1112 | the grazer's centre cell index lies between 0 and the grid size |
| ParticleField.GrazeFromGrid | systems/particle_resource.go:1107-1158 | nothing is taken when rate*dt is not positive or the radius is negative; the grid total drops by exactly what is taken; on a non-negative grid cells stay non-negative and at most rate*dt is taken |
| ResourceField.TickRate | systems/resource_field.go:146-153 | the per-tick rate is rate*dt capped at 1, and non-negative for non-negative inputs |
| ResourceField.DecayCell | systems/resource_field.go:167-173 | detritus lost equals resource gained plus heat; a non-positive detritus cell is untouched; with rate in [0,1] detritus stays in [0, its old value]; with eff in [0,1] the resource does not drop and heat is non-negative |
| ResourceField.RegenCell | systems/resource_field.go:175-185 | the resource change equals energy input minus heat; a cell at capacity is untouched; below capacity it moves up toward capacity with non-negative input and no heat, above capacity it moves down toward capacity with non-negative heat and no input; a rate of 1 lands exactly on capacity |
| ResourceField.CellStep | systems/resource_field.go:162-188 | per cell, the change in resource plus detritus equals energy input minus heat loss; non-positive detritus is untouched; for in-range rates input and heat are non-negative |
| ResourceField.Step | systems/resource_field.go:134-191 | every cell is updated by the per-cell rule with rates capped at 1; the field's total mass changes by exactly energy input minus heat loss; for in-range rates both returned quantities are non-negative |
| ResourceField.StepApproachesCapacity | systems/resource_field.go:175-185 | without detritus, a step leaves the resource between its old value and the capacity |
| ResourceField.AdvanceClock | systems/resource_field.go:136-144 | with a non-positive time speed the clock stands still and nothing is refreshed; otherwise time advances by dt*speed, a refresh stamps the current time, and no refresh means less than interval*speed has elapsed since the last one |
| ResourceField.CapacityNeverStale | systems/resource_field.go:136-144 | if the capacity is fresh before a step (less than interval*speed old) it is fresh after it |
| ResourceField.ScaledTimeSpeed | systems/resource_field.go:64-71 | the configured time speed is scaled by 1024 over the larger world dimension, so speed times world size stays 1024 times the configured speed |
| ResourceField.Graze | systems/resource_field.go:292-345 | the grid total drops by exactly what is taken; what is taken lies between 0 and rate*dt; no cell rises, and non-negative cells stay non-negative, whatever the grid holds |
| ResourceField.GrazeAgreesWithParticleField | systems/resource_field.go:292-345 | on a non-negative grid the guarded take of this field and the unguarded take of the particle field remove exactly the same amounts |
| ResourceField.DepositDetritus | systems/resource_field.go:203-208 | a non-positive amount deposits nothing; otherwise the whole amount lands on the detritus grid and is returned |
| AStar.GetNextWaypoint | systems/astar.go:372-392 | no cache or an exhausted path returns the organism's own position with nothing more; otherwise the index advances exactly when within the arrival distance, the returned point is the waypoint at the new index (or the last one reached), and hasMore holds exactly when waypoints remain beyond the current one |
| AStar.ArrivalAdvances | systems/astar.go:372-392 | standing on the current waypoint with a positive arrival distance advances the index by one |
| AStar.HasMoreLeavesAWaypoint | systems/astar.go:372-392 | when more waypoints are reported, the cached index points at a waypoint that is not the last |
| AStar.IndexMonotone | systems/astar.go:372-392 | the path index never moves back, moves at most one step, never passes the path's end, and the waypoints are left unchanged |
| AStar.IsPathValid | systems/astar.go:341-368 | a cached path is valid exactly when it exists and is non-empty, is at most maxAge ticks old, the target moved no more than 32 units, and no remaining waypoint is blocked on the size class's grid |
| AStar.GetCollisionRadius | systems/astar.go:396-405 | with a box of some positive half-extent the radius is the larger half-extent; otherwise it is three times the cell size |
| AStar.Less | systems/astar.go:41-42 | the heap order compares f scores, and no node is less than itself |
| AStar.Swap | systems/astar.go:43-47 | two heap entries exchange places with their index fields kept in step; every other entry is unchanged and the keys are only permuted |
| AStar.Push | systems/astar.go:49-53 | a push appends the node with its index set to its position, keeping the rest and adding exactly its key |
| AStar.Pop | systems/astar.go:55-63 | a pop removes the last entry, marks it with index -1, and the keys left plus the popped one are the keys before |
| AStar.PushPop | systems/astar.go:49-63 | popping right after pushing returns the pushed node (index -1) and the heap as it was |
| AStar.FindNearestOpen | systems/astar.go:309-327 | the result is either (-1, -1) with every ring from 1 to 9 around the cell blocked, or an unblocked cell on the first ring (1 to 9) that has one, all nearer rings being blocked |
| AStar.SimplifyPath | systems/astar.go:255-277 | paths of at most two points are returned as they are; otherwise the first and last points are kept, and an interior point is kept exactly when its two original neighbours lack line of sight, in path order |
| AStar.KeptAt | systems/astar.go:263-273 | the kept interior indices are increasing, each lacks line of sight across it, and every interior index lacking line of sight is kept |
| AStar.CellIdRoundTrip | systems/astar.go:244-245 | a row-major node id decodes back to its column and row |
| AStar.OpenEndpoint | systems/astar.go:86-99 | an unblocked endpoint is kept; a blocked one is replaced by the nearest open cell, and the search fails exactly when all nine rings around it are blocked |
| AStar.FindPath | systems/astar.go:79-105 | start and goal in the same open cell give the one-point path at that cell's centre; a blocked start or a blocked goal with every one of the nine rings around it blocked gives no path; open distinct start and goal cells get exactly the search's answer between those cells |
| NavGrid.GetSizeClass | systems/navgrid.go:26-34 | Small exactly below radius 12, Medium exactly from 12 below 24, Large exactly from 24 |
| NavGrid.SizeClassMonotone | systems/navgrid.go:26-34 | a larger radius never gets a smaller size class |
| NavGrid.IsBlocked | systems/navgrid.go:110-115 | out-of-bounds cells are blocked; an in-bounds cell is blocked exactly when its row-major entry says so |
| NavGrid.WorldToGrid | systems/navgrid.go:125-129 | for a non-negative coordinate the returned cell's span contains the point |
| NavGrid.GridToWorld | systems/navgrid.go:132-136 | the world point of a cell is the cell's centre |
| NavGrid.GridWorldRoundTrip | systems/navgrid.go:125-136 | converting a cell's centre back to grid coordinates gives the same cell |
| NavGrid.WorldGridNear | systems/navgrid.go:125-136 | a non-negative point is within half a cell, on each axis, of the centre of the cell it falls in |
| NavGrid.IsBlockedWorld | systems/navgrid.go:118-122 | a point a whole cell or more to the left of the grid is blocked, and an unblocked point lies in a grid cell |
| NavGrid.GetGrid | systems/navgrid.go:161-166 | a known size class gets its own grid and any other falls back to the Large grid |
| NavGrid.SizeClassHasGrid | systems/navgrid.go:26-34 | every radius maps to a size class that has its own grid |
| Spatial.NewSpatialGrid | systems/spatial.go:29-46 | a new grid has int(extent/cellSize)+1 columns and rows, so the last cell on each axis covers the extent itself, and every cell is empty |
| Spatial.CellsFor | systems/spatial.go:30-31 | the number of cells along an axis is at least one and its last cell contains the extent |
| Spatial.Clear | systems/spatial.go:49-53 | clearing empties every cell and keeps the geometry |
| Spatial.ClampCell | systems/spatial.go:131-140 | a cell coordinate is clamped into 0 .. n-1 and an in-range one is kept |
| Spatial.CellIndex | systems/spatial.go:126-143 | the index always names a cell of the grid |
| Spatial.CellIndexContains | systems/spatial.go:126-143 | for a point inside the grid the index's column and row are the cells that contain it |
| Spatial.Insert | systems/spatial.go:56-61 | the entity is appended to the cell of its position and every other cell is unchanged |
| Spatial.ClearThenInsert | systems/spatial.go:49-61 | after clearing and inserting one entity, its cell holds exactly that entity and every other cell is empty |
| Spatial.ScanRows | systems/spatial.go:81-84 | one column's scan visits one in-grid cell per row offset |
| Spatial.ScanCells | systems/spatial.go:80-84 | every cell the scan visits is in the grid |
| Spatial.Candidates | systems/spatial.go:86 | the candidates are exactly the entities held by the scanned cells |
| Spatial.Judge | systems/spatial.go:87-100 | an entity is accepted exactly when it is not the excluded one, has a position, and its torus distance squared is within the radius squared; the record carries the shortest torus deltas and their squared length |
| Spatial.Matches | systems/spatial.go:86-107 | the matches are the accepted candidates, in scan order, and every accepted candidate is among them |
| Spatial.CollectTakesMatches | systems/spatial.go:100-106 | the collected result is the input followed by the matches in order, cut off once the 128-entry cap is reached |
| Spatial.QueryRadiusInto | systems/spatial.go:70-112 | the input results are kept as a prefix; every appended neighbour is not the excluded entity, has a position, lies within the radius, and carries the torus deltas; starting below the cap the result never exceeds 128 entries |
| Spatial.QueryComplete | systems/spatial.go:70-112 | every acceptable entity in a scanned cell is returned unless the 128-entry cap was reached |
| Spatial.QueryRadius | systems/spatial.go:116-123 | at most 128 entities, none the excluded one, each with a position |
| Spatial.WrapAsWritten | systems/spatial.go:82-83 | the column and row wrap (c + d + n) % n lands in 0 .. n-1 whenever c + d + n is non-negative |
| Spatial.WrapAsWrittenAgrees | systems/spatial.go:82-83 | whenever c + d + n is non-negative the wrap as written agrees with the true modulus used by the scan |
| Spatial.WrapAsWrittenGoesNegative | systems/spatial.go:82-83 | with 2 columns, centre column 0 and a cell radius of 3 the wrap as written gives column -1 |
| Camera.ZoomFloor | camera/camera.go:31-38 | the minimum zoom is the larger of viewport/world width and viewport/world height |
| Camera.ZoomFloorFitsWorld | camera/camera.go:27-30 | at any zoom at or above the floor the visible world area fits inside the world on both axes |
| Camera.New | camera/camera.go:26-49 | a new camera sits at the world's centre with zoom 1, maximum zoom 4, the zoom floor as its minimum, and the given viewport and world sizes |
| Camera.Mod | camera/camera.go:219-225 | the floating modulus lands in [0, m) and agrees with x, x + m or x - m on the ranges one wrap away |
| Camera.Pan | camera/camera.go:169-173 | panning keeps the camera position inside the world and changes nothing but the position |
| Camera.PanBack | camera/camera.go:169-173 | panning by a delta shorter than the world and then by its opposite returns the camera to where it was |
| Camera.WrapBack | camera/camera.go:219-225 | wrapping p + d and then adding -d and wrapping again gives back p for any p inside the world |
| Camera.SetZoom | camera/camera.go:176-178 | the zoom is clamped into [minZoom, maxZoom]: an in-range zoom is kept exactly, one below the floor becomes minZoom, one above the ceiling becomes maxZoom, and nothing else changes |
| Camera.SetZoomIdempotent | camera/camera.go:176-178 | setting the same zoom twice is the same as setting it once |
| Camera.ZoomBy | camera/camera.go:181-183 | the zoom becomes zoom times factor clamped into [minZoom, maxZoom]: kept when in range, minZoom when below, maxZoom when above, and nothing else changes |
| Camera.ZoomClampExample | camera/camera_test.go:76-93 | a 1280x720 viewport on a 2560x1440 world has floor 0.5; zoom 0.1 is raised to 0.5 and zoom 10 is lowered to the ceiling 4 |
| Camera.Resize | camera/camera.go:150-165 | an unchanged viewport leaves the camera as it is; a new one recomputes the zoom floor and raises the zoom to it only when below it; position and maximum zoom are kept |
| Camera.Reset | camera/camera.go:186-190 | the camera returns to the world centre at zoom 1 and nothing else changes |
| Camera.ResetIsNew | camera/camera.go:186-190 | resetting a new camera after any pan and zoom gives back the new camera |
| Camera.ResetBelowFloor | camera/camera.go:186-190 | with a 200x200 viewport on a 100x100 world the floor is 2, yet reset sets zoom 1 below it |
| Camera.AxisToWorld | camera/camera.go:66-75 | a screen coordinate maps to a world coordinate inside the world |
| Camera.WorldToScreen | camera/camera.go:54-63 | the camera's own position maps to the centre of the viewport |
| Camera.ScreenToWorld | camera/camera.go:66-75 | every screen point maps to a world point inside the world |
| Camera.ScreenRoundTrip | camera/camera.go:54-75 | at a zoom no lower than the floor, a point strictly inside the viewport maps to world and back to the same screen point |
| Camera.AxisRoundTrip | camera/camera.go:54-75 | the per-axis screen-to-world-to-screen round trip holds when the viewport fits in the zoomed world |
| Overlays.Get | ui/overlays.go:192-195 | a descriptor is found exactly for a registered id, and it is the registered one |
| Overlays.RegisterFacts | ui/overlays.go:142-147 | after registering, the id maps to the new descriptor and is off; every other id keeps its descriptor and enabled state |
| Overlays.DisableAll | ui/overlays.go:174-178 | every listed id is switched off and every other entry is kept |
| Overlays.SetEnabled | ui/overlays.go:170-184 | an unknown id changes nothing; enabling an overlay switches off its exclusive partners; the id itself ends on or off as asked unless it lists itself; every other id keeps its state |
| Overlays.Toggle | ui/overlays.go:150-167 | an unknown id changes nothing and reports false; a known one is set to the opposite of its state and the new state is returned |
| Overlays.ToggleTwiceRestores | ui/overlays.go:150-167 | toggling an off overlay whose partners are off turns it on, and toggling again turns it off and restores every state |
| Overlays.SetEnabledIdempotent | ui/overlays.go:170-184 | setting the same state twice is the same as setting it once |
| Overlays.SetEnabledKeepsNoConflict | ui/overlays.go:170-184 | with symmetric exclusions, no two mutually exclusive overlays are ever on together after a set |
| Overlays.ToggleKeepsNoConflict | ui/overlays.go:150-167 | the same holds after a toggle |
| Overlays.FirstWithKey | ui/overlays.go:229-233 | the scan stops at the first descriptor bound to the key, or at the end when none is |
| Overlays.HandleKeyPress | ui/overlays.go:228-236 | a key is handled exactly when some descriptor is bound to it; then the first such descriptor's overlay is toggled and its new state reported; otherwise nothing changes |
| Overlays.EnabledOverlays | ui/overlays.go:239-247 | the result lists exactly the registered overlays that are on, and is empty when none is |
| Overlays.EnabledIn | ui/overlays.go:240-245 | the enabled ids among the given order, no more of them than the order has, and all of the enabled ones |
| Overlays.EnabledInCounts | ui/overlays.go:240-245 | each enabled id appears as many times as the order lists it and a disabled id never appears |
| Overlays.EnabledInSingle | ui/overlays.go:240-245 | a one-id order lists that id exactly when it is enabled |
| Overlays.EnabledInAppend | ui/overlays.go:240-245 | listing a concatenation lists the first part and then the second; with the one-id case this fixes the result as the enabled ids in the order given |
| Overlays.RegisterAllLayout | ui/overlays.go:142-147 | registering a sequence appends the descriptors and their ids in the order given |
| Overlays.RegisterAllKeeps | ui/overlays.go:142-147 | an id the sequence does not mention keeps its descriptor |
| Overlays.RegisterAllGet | ui/overlays.go:142-147 | an id maps to the last descriptor registered under it |
| Overlays.RegisterAllKnown | ui/overlays.go:142-147 | every id registered afterwards was there before or is mentioned in the sequence |
| Overlays.RegisterAllOff | ui/overlays.go:142-147 | registering never switches an overlay on, and every registered overlay starts off |
| Overlays.NewRegistryOrder | ui/overlays.go:53-139 | the default registry lists the nine overlays in the order species colours, capability colours, cell types, perception cones, light map, flow field, pathfinding, collision boxes, orientation |
| Overlays.NewRegistryGet | ui/overlays.go:43-50 | every default overlay is registered under its own descriptor, and nothing else is registered |
| Overlays.NewRegistryAllOff | ui/overlays.go:43-50 | a new registry has every overlay off and no enabled overlays |
| Overlays.DefaultIdsDistinct | ui/overlays.go:53-139 | the default overlays have distinct ids |
| Overlays.DefaultExclusive | ui/overlays.go:53-139 | the only exclusions among the defaults are species colours against capability colours and back |
| Overlays.NewRegistryExclusive | ui/overlays.go:53-139 | the default exclusions are symmetric and no conflicting pair is on |
| Overlays.KeyFromAllOff | ui/overlays.go:228-236 | from an all-off registry a bound key turns on exactly the first descriptor bound to it |
| Overlays.SpeciesKey | ui/overlays.go:228-236 | pressing S on a new registry turns on species colours and nothing else |

## Left out

- I/O: CSV reading and plotting in analyze.py, config loading, JSON marshalling (HallOfFame MarshalJSON, LoadHallOfFameFromFile), perf LogStats and ToCSV. Logging is not state and has no checkable rules.
- Pearson correlation in analyze.py is not computed. It is an input that may be NaN (`None`), because pandas' numerics are not part of this model.
- Rendering, the ECS, goroutines and the per-frame game loop are left out. The rules they call are modelled one call at a time.
- Noise and OpenSimplex capacity fields are left out: ResourceField.updateCapacity, particle flow fields and the spawn lottery. The capacity grid and particle positions are inputs.
- fastSqrt, fastSin, fastAtan2, cos, log and exp are function parameters or inputs. Their numerical accuracy is not modelled.
- Energy.UpdatePreyForage: the prey speed is an input rather than computed with fastSqrt, and the rule requires maxSpeed > 0. A zero maximum speed divides by zero in the source (Inf/NaN is not modelled).
- Allocation.UpdateOrganism requires maxEnergy != 0: the source's float division by zero yields Inf or NaN, which reals cannot represent.
- The allocation searches hasFoodNearby and hasThreatNearby are boolean inputs. They are spatial queries over the ECS.
- The breeding random draws (rand.Float32 coins and rand.Intn) are parameters. The same holds for the toggleEnable gene pick, the hall-of-fame tournament indices and Gaussian mutation draws.
- Traits are a set of bit positions rather than a uint32. Only positions below 32 occur, so union, intersection and removal match the bit operations.
- TraitWeights, MutationName and GetTraitColor are left out: they return display data only.
- The loadVisionWeights arity differs in the snapshot: systems/sensors.go:51 passes one argument while systems/vision.go:56 takes two. The model follows vision.go.
- SectorVision.VisionEffectivenessForSector: the snapshot's declaration at systems/vision.go:42 takes a sector and a `components.Kind`, but its callers at systems/sensors.go:287 and systems/sensors.go:439 pass the caller's float32 diet. The model follows the declaration: a `Kind` picks the predator or the prey weights. How a diet would select the weights is not modelled.
- The WindowStats literal in telemetry/collector.go:166 sets a `ParticleInput` field, but the struct in telemetry/stats.go:46-54 declares `InTransit` and `EnergyInput` instead. Collector.Flush stores the pools' particle input as `energyInput` and sets `inTransit` to 0, the struct's "unused" field.
- Package systems declares `normalizeAngle` twice: a loop in systems/math.go:32-40 and a single-step correction in systems/sensors.go:535-543. SectorVision.ZoneEffectiveness (systems/vision.go:78) uses the loop form `SimMath.AngleWrap`. `SectorVision.NormalizeAngleFormsAgree` proves the two forms equal for angles within one turn of [-pi, pi].
- Ffnn Clone is left out: the model's networks are immutable values, so a copy shares nothing by construction.
- Dense Mutate is left out: it is only random normal draws added to every weight. MutateSparse's bookkeeping is modelled.
- Reproduction: the genome crossover and the mutation operators other than toggleEnable and clampWeight are left out. They call the NEAT library.
- Species: GetSpecies, GetSpeciesCount and CalculateCompatibility are not modelled as separate operations. CalculateFitness and CalculateBreedingFitness are modelled over reals, so the float32 division and float64 products are exact; a zero maximum energy, which Go turns into an infinity or NaN, is modelled as None.
- Collector: the int32 truncation of ticksPerWindow and the float32 conversion of dt are not modelled. Realistic window lengths fit easily.
- The free-text description strings of bookmarks, overlays and hall-of-fame entries are not modelled; only their kinds, ticks and ids are.
- Overlays: All, ByCategory and Categories (ui/overlays.go:198-224) are left out. They are read-only listings with no rules beyond their loops. Overlay ids are a datatype of the nine standard ids plus `Other(name)`, where ui/overlays.go:8 declares `OverlayID` as a string. In the model `Other("species_colors")` is a different id from `SpeciesColors`, while in Go the two strings are the same id. The model does not promise anything about an `Other` id whose name spells a standard id.
- Camera.Reset sets zoom 1 even when the zoom floor is higher; Camera.ResetBelowFloor exhibits it. It is noted, not corrected, because Resize or SetZoom restores the floor on the next viewport change.
- Camera IsVisible, GhostPositions and VisibleWorldBounds are left out. They only serve culling and ghost rendering.
- ParticleField.SplatToGrid, ParticleField.RemoveFromGrid, ParticleField.DepositDetritus and ResourceField.DepositDetritus require positions already wrapped into the world (x, y >= 0). Every caller wraps first; negative positions would make int() truncate toward zero onto the wrong cell.
- ParticleField.GrazeFromGrid: particle_resource.go's grazeFromGrid has no `take > 0` guard, unlike resource_field.go. So non-negativity and the bound on what is taken are proved only for non-negative grids, and ResourceField.GrazeAgreesWithParticleField shows that there the two agree.
- Spatial.QueryRadius: coverage of the query disc by the scanned cells is not proved. The contract states soundness, and Spatial.QueryComplete states completeness only over the entities in the scanned cells.
- Spatial.ScanCells: when 2 * cellRadius + 1 exceeds the column count the scan visits some cells twice. The source does the same, so the model keeps it and duplicate neighbours can occur.
- AStar.FindPath: the A* search loop (open set, g-scores, neighbour expansion) is a parameter. The model states the endpoint handling, the same-cell shortcut and the failure when no open cell is near.
- NavGrid: building a grid from terrain (NewNavGridFromTerrain) is left out; a grid is any cell map of the right size.

## Findings

| source | as written | input that shows it | evidently intended | confidence | as-written member | corrected member |
|---|---|---|---|---|---|---|
| neural/ffnn.go:277-286 | tanh returns x(27+x²)/(27+9x²) for -4 <= x <= 4 and saturates only beyond 4; the rational form exceeds 1 for 3 < x <= 4 | x = 3.5 gives 137.375/137.25 > 1 | a tanh approximation bounded by 1, saturating where the rational form reaches 1 (at 3) | not executed | Ffnn.TanhOvershoots | Ffnn.Tanh |
| systems/spatial.go:82-83 | the scanned column is (centerCol + dc + cols) % cols, and Go's % keeps the sign, so it is negative when dc < -(centerCol + cols) | cols = 2, centre column 0, cellRadius 3 gives column -1, an out-of-range cell index | a toroidal wrap into 0 .. cols-1 for any offset | not executed | Spatial.WrapAsWrittenGoesNegative | Spatial.ScanCells |
| telemetry/bookmark.go:247-250 | the stability test reads the last four entries of getHistory, which after the ring buffer wraps are the last four physical slots | five slots, six rows: the window holds rows 1-4 while the most recent four are rows 2-5 | the four most recent windows, as the comment there says | not executed | Bookmark.StableWindowNotRecent | Bookmark.ChronologicalWindowIsRecent |

For these rows the model uses the corrected behaviour:

- `Ffnn.Forward` uses the saturating `Ffnn.Tanh`.
- The spatial scan wraps with the Euclidean `Grid.ModInt`. `Spatial.WrapAsWrittenAgrees` shows that this equals the source's expression whenever that expression is non-negative.
- `Bookmark.Detect` feeds the stability test the buffer read oldest-first (`Bookmark.Chronological`).
