# MedResearchAI weight normalisation and scoring, in Dafny

This project models the engine in `services/dataService.ts` of the
MedResearchAI dashboard. The engine has three parts:

- **`loadAndNormalize`.** It merges a parameter list with two sparse weight
  maps, "global" and "local". A missing key reads as 0. Every weight is
  divided by one shared maximum absolute value, or by 1.0 when that maximum
  is 0. Each feature is labelled POSITIVE, NEGATIVE or NEUTRAL from the sign
  of its scaled global weight. The response is flagged as biased when a
  `gene_marker` parameter has a scaled global weight above 0.85 in magnitude.
- **Top-feature selection.** The list is copied, sorted by raw global weight
  (descending, then ascending) and element 0 is taken. Because the sort is
  stable, the chosen feature is the first one in parameter order with the
  maximum (or minimum) weight.
- **`predictOutcome`.** A loop accumulates `Σ value · global_weight` and
  `Σ |global_weight|`. The normalised score is their quotient (the total is
  replaced by 1 when it is 0), and it is compared strictly with 0.1. The
  confidence is `min(0.99, 0.75 + 0.2 · draw)`.

Two small dashboard computations on the same data are also modelled:

- the "directional corrections" filter of an analysis card;
- the number of bias-flagged diseases in a category summary.

Numbers are `real`, weight and patient maps are `map<string, real>`, and
`undefined` is `Option.None`.

Files:

- `types.dfy` (module `Types`): the shapes of `types.ts`, plus `Abs` and the
  missing-key-is-zero lookup.
- `normalize.dfy` (module `Normalize`): `loadAndNormalize` as functions, and
  lemmas about scaling, direction and the bias flag.
- `top_features.dfy` (module `TopFeatures`): the two comparators, a stable
  insertion sort, and the proof that its head is the first extreme feature.
- `predictor.dfy` (module `Predictor`): `predictOutcome` as a method with a
  loop, proved against the recursive sums `Score` and `TotalWeight`, plus
  bounds on the normalised score.
- `dashboard.dfy` (module `Dashboard`): the corrections filter and the
  biased count.

## Model

| member | source | states |
|---|---|---|
| Types.GetOrZero | services/dataService.ts:17-18 | a key present in the map gives its value; an absent key gives 0 (the same lookup reads patient values at line 135) |
| Types.Abs | services/dataService.ts:22 | `Math.abs` is non-negative and is either the argument or its negation |
| Normalize.MaxAbs | services/dataService.ts:22-23 | the maximum is non-negative, bounds the absolute value of every global and local weight, and is attained by one of them when there are parameters |
| Normalize.Divisor | services/dataService.ts:23-24 | the divisor is strictly positive and bounds every weight; it is 1.0 in the all-zero case and otherwise equals some weight's magnitude |
| Normalize.ScaleFeature | services/dataService.ts:26-38 | one output feature keeps the parameter and both raw weights; each scaled weight times the divisor gives back the raw weight; a weight within the divisor scales into [-1, 1]; the direction is the sign of the raw global weight |
| Normalize.Features | services/dataService.ts:26-38 | one feature per parameter, in order, with the raw weights copied (absent keys as 0), both scaled by the one shared divisor, and POSITIVE or NEGATIVE exactly when the raw global weight is positive or negative |
| Normalize.DirectionOf | services/dataService.ts:36 | POSITIVE iff the scaled weight is > 0, NEGATIVE iff < 0, NEUTRAL iff = 0 |
| Normalize.Contains | services/dataService.ts:42 | `includes` is true iff the marker occurs at some index of the parameter name |
| Normalize.IsBiased | services/dataService.ts:42 | a feature is sensitive iff the marker occurs somewhere in its name and its scaled global weight is above 0.85 or below -0.85 |
| Normalize.AnyBiased | services/dataService.ts:41-43 | `some` is true iff some feature has the marker and a scaled global magnitude strictly above 0.85 |
| Normalize.LoadAndNormalize | services/dataService.ts:9-51 | status "OK" and method "Max-Absolute Scaling"; one feature per parameter, in order; raw weights copied with absent keys as 0; both scaled weights are the raw ones divided by the shared divisor; the direction follows the scaled global weight; the bias flag holds iff some marker parameter scales above 0.85 |
| Normalize.ScaledWithinUnit | services/dataService.ts:22-28 | every scaled global and local weight lies in [-1, 1] |
| Normalize.ScaledAttainsOne | services/dataService.ts:22-28 | when some weight is nonzero, some feature has a scaled weight of magnitude exactly 1 |
| Normalize.AllZeroIsNeutral | services/dataService.ts:24-36 | with every weight zero the divisor is 1.0, every scaled weight is 0, every direction is NEUTRAL and nothing is flagged |
| Normalize.DirectionMatchesSign | services/dataService.ts:27-36 | each direction agrees with the sign of both the scaled and the raw global weight |
| Normalize.EmptyParameters | services/dataService.ts:41-50 | no parameters give no features, no bias flag and status "OK" |
| Normalize.BiasFlagExamples | services/dataService.ts:40-43 | a marker weight of 10 against 1 flags; a marker weight of 0.5 against 1 does not |
| Normalize.BiasThresholdIsStrict | services/dataService.ts:42 | a marker scaled to exactly 0.85 does not flag |
| Normalize.ZeroDivisionSafety | services/dataService.ts:15-36 | a parameter absent from both maps becomes an all-zero NEUTRAL feature |
| TopFeatures.Compare | services/dataService.ts:79-80 | a negative result, which puts `a` first, means `a` has the larger global weight (descending) or the smaller one (ascending); zero means equal weights |
| TopFeatures.Insert | services/dataService.ts:79-80 | stable insertion keeps the elements (multiset) and adds one to the length |
| TopFeatures.Sort | services/dataService.ts:79-80 | the sorted copy is a permutation of the features |
| TopFeatures.SortIsSorted | services/dataService.ts:79-80 | the sorted copy is ordered by the comparator and is a permutation of the input |
| TopFeatures.SortHead | services/dataService.ts:79-80 | element 0 of the sorted copy is the first feature, in input order, at least as extreme as every feature |
| TopFeatures.FirstExtremeUnique | services/dataService.ts:79-80 | that first extreme index is unique |
| TopFeatures.Top | services/dataService.ts:79-80 | element 0 is `undefined` iff the list is empty, and otherwise it is the first extreme feature |
| TopFeatures.TopPositive | services/dataService.ts:79 | `undefined` iff there are no features; otherwise its global weight is >= every feature's, and every earlier feature has a strictly smaller weight |
| TopFeatures.TopNegative | services/dataService.ts:80 | `undefined` iff there are no features; otherwise its global weight is <= every feature's, and every earlier feature has a strictly larger weight |
| TopFeatures.Analyze | services/dataService.ts:77-89 | `id`, `name` and `category` are passed through; `backendData` is the normalised response of the parameters; the tops are the first maximum and first minimum of its features; so the status is "OK", both tops exist iff there are parameters, both are among the features, and the top negative weight is <= the top positive weight |
| TopFeatures.EqualWeightsPickFirst | services/dataService.ts:110-111 | when all global weights are equal, both tops are the first feature |
| TopFeatures.TieBreakExample | services/dataService.ts:79-80 | two parameters both weighted 5: the first is both top features |
| Predictor.Score | services/dataService.ts:131-136 | the sum of value times global weight is 0 when every global weight is 0, and when every patient value is 0 (absent keys included) |
| Predictor.TotalWeight | services/dataService.ts:132-137 | the total magnitude is non-negative, and it is 0 iff every global weight is 0 |
| Predictor.NormalizedScore | services/dataService.ts:140 | the normalised score is 0 when every global weight is 0 (the total is then replaced by 1), and when every patient value is 0 |
| Predictor.OutcomeOf | services/dataService.ts:145 | "Positive Outcome" iff the normalised score is strictly above 0.1, otherwise "Negative Outcome" |
| Predictor.Confidence | services/dataService.ts:141 | for a draw in [0, 1) the confidence lies in [0.75, 0.99], and in fact below 0.95 |
| Predictor.PredictOutcome | services/dataService.ts:127-147 | the loop's score and total equal the recursive sums; the result is "Positive Outcome" iff score / (total, or 1 if 0) > 0.1; the confidence comes from the draw and lies in [0.75, 0.99] |
| Predictor.TermBound | services/dataService.ts:136 | a value within [-b, b] contributes at most b · |weight| in magnitude |
| Predictor.WeightBoundIsScaledTotal | services/dataService.ts:137 | summing b · |weight| equals b times the total weight |
| Predictor.ScoreWithinWeightBound | services/dataService.ts:134-138 | with every value in [-b, b], the score lies within the sum of b · |weight| |
| Predictor.RatioBound | services/dataService.ts:140 | a score within b times a non-negative total, divided by that total (or by 1 if it is 0), lies in [-b, b] |
| Predictor.ScoreBound | services/dataService.ts:134-138 | with every value in [-b, b], the score lies within b times the total weight |
| Predictor.NormalizedScoreBound | services/dataService.ts:131-140 | with every value in [-b, b], the normalised score lies in [-b, b] |
| Predictor.SmallValuesPredictNegative | services/dataService.ts:140-145 | patient values all within [-0.1, 0.1] always give "Negative Outcome" |
| Predictor.ZeroWeightsPredictNegative | services/dataService.ts:131-145 | all-zero weights, or no features, give total 0, normalised score 0 and "Negative Outcome" |
| Predictor.ThresholdExamples | services/dataService.ts:145 | a value of 0.2 against a unit weight is positive; a value of 0.05 is not |
| Dashboard.Sign | components/AnalysisCard.tsx:60 | `Math.sign` is 1, -1 or 0 exactly for positive, negative or zero arguments |
| Dashboard.IsCorrection | components/AnalysisCard.tsx:60 | a feature is a correction iff its global weight is above 0.1 and its local weight is not positive, or its global weight is below -0.1 and its local weight is not negative |
| Dashboard.Corrections | components/AnalysisCard.tsx:59-61 | the filtered list is no longer than the input, and each kept feature qualifies and comes from the input |
| Dashboard.CorrectionsAppend | components/AnalysisCard.tsx:59-61 | filtering a concatenation gives the concatenation of the filtered parts |
| Dashboard.CorrectionKept | components/AnalysisCard.tsx:59-61 | every qualifying feature is kept, at the position given by the number of qualifying features before it |
| Dashboard.CorrectionsKeepOrder | components/AnalysisCard.tsx:59-61 | two qualifying features keep their relative input order |
| Dashboard.CorrectionHasDirection | components/AnalysisCard.tsx:59-61 | in a normalised response, no correction is NEUTRAL, and its direction is the sign of its global weight |
| Dashboard.BiasedCount | App.tsx:49 | the count is at most the number of analyses; it is 0 iff none is flagged, and it equals the length iff all are flagged |
| Dashboard.BiasedCountAppend | App.tsx:49 | counting over concatenated lists adds the counts |

## Left out

- `analyzeFiles` and `performAnalytics` (services/dataService.ts:57-122) are left out. They are mock endpoints that fill the weight maps with `Math.random()`. What they compute per disease is modelled by `TopFeatures.Analyze`. The disease and parameter tables they read are left out too.
- The `id` slug (`name.toLowerCase().replace(/\s+/g, '-')`) is passed in to `TopFeatures.Analyze` rather than computed, because it is string formatting only.
- `Math.random()` in the confidence is not modelled. The draw is a parameter in [0, 1).
- Numbers are exact reals, not IEEE doubles. NaN, `Infinity` and rounding are not modelled.
- Normalize.MaxAbs: on an empty parameter list the source computes `Math.max()` over nothing, which is `-Infinity`. The model returns 0, which gives divisor 1.0. Neither value is ever used, because there are no features to divide.
- Types.GetOrZero: the source reads a patient value with `|| 0`, which also maps NaN to 0. The model treats an absent key as 0 and has no NaN.
- JavaScript object lookups inherited from the prototype (keys such as `constructor`) are not modelled. A map here holds only its own keys.
- Strings are sequences of characters. UTF-16 code units are not distinguished.
- The React screens, charts, file pickers, the `toFixed` percentage beside the biased count (App.tsx:50) and the other component code are presentation, and are not part of this model.
