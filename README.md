# Orange preprocessors: a Dafny model

This project models the row and column transformations of Orange's
`TPreprocessor_*` operators, from `source/orange/preprocessors.cpp`. Every
operator takes an example generator (a domain plus rows) and a weight id. It
returns a new example table and the weight id to use with it:

- `ignore`, `select` and `discretize` choose columns.
- `drop`, `take`, `filter` and the missing-value wrappers choose rows through
  a filter.
- `removeDuplicates` prepares the weight channel that the table's own
  duplicate removal sums into.
- `addNoise`, `addMissing`, their class-slot variants and the two Gaussian
  operators overwrite cells, or build the list of per-column deviations.
- `addClassWeight` reweights rows by class. It has three regimes: weights
  only, equalization only, and equalization with weights.
- `addCensorWeight` weights censored rows for survival analysis. It has three
  methods: linear, Kaplan–Meier and Bayes.

Modules, one per file:

- `Data` (`data.dfy`): values, variables, domains, rows, weights, the error
  kinds, and the mutable `ExampleTable` class.
- `Columns` (`columns.dfy`): `ignore`, `select`, `discretize`.
- `Filters` (`filters.dfy`): `drop`/`take`/`constructFilter`, the filter
  wrappers, and the `removeDuplicates` weight channel.
- `Noise` (`noise.dfy`): `addNoise`, `addMissing`, `addGaussianNoise`,
  `addClassNoise`, `addGaussianClassNoise`, `addMissingClasses`.
- `ClassWeight` (`classweight.dfy`): `addClassWeight`.
- `Censor` (`censor.dfy`): `addCensorWeight` and its `addExample`.

Each loop of the source is a `method` with a `while` loop, over the
rows of an `ExampleTable` or over the variable and weight lists. The method is proved equal to a pure fold of the same shape,
and the operator's promises are proved as lemmas about that fold. A raised
error is a `Failure` of the `Result` type.

Randomness and external computations are parameters:

- Random index lists are masks (`seq<bool>`, one bit per row).
- `randomValue()` is a function `drawn(row, column)`.
- The class distribution is a `seq<real>`.
- The survival curve is `survival: real -> real`, with `curveLast` its value
  at the last time point.
- The filter evaluator is `accepts(filter, row)`.
- `getMetaID()` is a `freshId`.

Floats are reals.

## Model

| member | source | states |
|---|---|---|
| Data.GetVarNum | source/orange/preprocessors.cpp:132 | a variable's position is defined exactly for the variables of the domain: its attribute index, or the slot after the attributes for the class |
| Data.GetVarNumInjective | source/orange/preprocessors.cpp:164 | in a well-formed domain two variables at the same position are the same variable |
| Data.SetMeta | source/orange/preprocessors.cpp:586 | setMeta keeps the values, updates only that meta id, and makes the weight read under a non-zero id equal the written weight |
| Data.SetClass | source/orange/preprocessors.cpp:623 | setClass changes only the last (class) cell and keeps the metas |
| Data.ExampleTable.AddExample | source/orange/preprocessors.cpp:620 | the table's rows become the old rows followed by the new one |
| Data.ExampleTable.SetValue | source/orange/preprocessors.cpp:252 | only cell (i, idx) of the table changes |
| Data.ExampleTable.SetWeight | source/orange/preprocessors.cpp:586 | only row i's meta `id` changes |
| Columns.WithoutMembers | source/orange/preprocessors.cpp:73-78 | the attributes left are exactly those of the domain that are not listed |
| Columns.WithoutTwice | source/orange/preprocessors.cpp:73-78 | removing one list and then another equals removing their concatenation |
| Columns.DelVariableIsWithout | source/orange/preprocessors.cpp:74 | in a list without repetitions, delVariable removes exactly v and shortens the list by one |
| Columns.IgnoreDomainCharacterised | source/orange/preprocessors.cpp:70-82 | ignore succeeds iff every listed variable is, once, an attribute or the class; it then leaves the unlisted attributes and the class unless listed; otherwise it fails with "attribute not found" for a listed variable |
| Columns.IgnoreNarrows | source/orange/preprocessors.cpp:72-81 | the output domain's variables all come from the input domain, so every row can be converted |
| Columns.ConvertRows | source/orange/preprocessors.cpp:81 | TExampleTable(outDomain, gen) keeps each row's count, metas and the value of every kept variable |
| Columns.Ignore | source/orange/preprocessors.cpp:70-82 | the loop over the list computes the ignore domain, converts the rows and passes the weight id through |
| Columns.Selected | source/orange/preprocessors.cpp:98-106 | select keeps exactly the listed attributes, and the class iff it is listed |
| Columns.SelectIgnoreComplement | source/orange/preprocessors.cpp:70-110 | for the same list, select and ignore split the attributes between them, and exactly one of them keeps the class |
| Columns.SelectAttributes | source/orange/preprocessors.cpp:101-103 | deleting every unlisted attribute from a copy leaves the listed attributes, in domain order |
| Columns.Select | source/orange/preprocessors.cpp:96-110 | the output is the selected domain with converted rows and an unchanged weight id |
| Columns.ListedPositionsFails | source/orange/preprocessors.cpp:765-767 | an explicit discretize list fails iff some listed variable is not in the domain |
| Columns.ContinuousIndicesExact | source/orange/preprocessors.cpp:770-775 | the default indices are exactly the continuous attributes, increasing |
| Columns.DiscretizeIdsDefault | source/orange/preprocessors.cpp:769-778 | without a list: the continuous attributes in order, followed by the class slot iff discretizeClass is set and the class is continuous |
| Columns.Discretize | source/orange/preprocessors.cpp:758-782 | an unset method is an error; otherwise the chosen indices are returned with the unchanged weight id |
| Filters.FilterExamplesExact | source/orange/preprocessors.cpp:53-56 | filterExamples keeps exactly the accepted rows |
| Filters.FilterExamplesSplit | source/orange/preprocessors.cpp:53-56 | a filter and one that inverts it split the rows between them |
| Filters.PositionedFails | source/orange/preprocessors.cpp:158-167 | building the value filters fails iff some key variable is not in the domain |
| Filters.PositionedExact | source/orange/preprocessors.cpp:161-165 | each value filter keeps its condition and is moved to its variable's position |
| Filters.ConstructFilter | source/orange/preprocessors.cpp:158-167 | the loop builds the conjunction of the positioned filters, or the first "not found" error |
| Filters.Drop | source/orange/preprocessors.cpp:125-137 | drop filters with the negated conjunction and passes the weight id through |
| Filters.Take | source/orange/preprocessors.cpp:151-155 | take filters with the conjunction and passes the weight id through |
| Filters.DropTakeSplit | source/orange/preprocessors.cpp:125-167 | drop and take with the same map split the rows between them |
| Filters.DropMissing | source/orange/preprocessors.cpp:187-190 | the rows are exactly those the negated has-special filter accepts, and the weight id is unchanged |
| Filters.TakeMissing | source/orange/preprocessors.cpp:193-196 | the rows are exactly those the has-special filter accepts |
| Filters.DropMissingClasses | source/orange/preprocessors.cpp:200-203 | the rows are exactly those the has-class-value filter (not negated) accepts |
| Filters.TakeMissingClasses | source/orange/preprocessors.cpp:207-210 | the rows are exactly those the negated has-class-value filter accepts |
| Filters.FilterOperator | source/orange/preprocessors.cpp:791-795 | it fails iff the filter property is unset; otherwise it keeps exactly the accepted rows |
| Filters.DuplicatesWeightChannelKeepsWeights | source/orange/preprocessors.cpp:171-183 | the duplicate removal gets every row's values and weight unchanged: the existing weight id, or a fresh id with weight 1 |
| Noise.OverwriteCell | source/orange/preprocessors.cpp:250-254 | only the masked cells of the chosen column change, to the replacement value |
| Noise.MaskColumn | source/orange/preprocessors.cpp:250-254 | the in-place loop over the random index list overwrites exactly the masked cells of the column |
| Noise.ExplicitPassCells | source/orange/preprocessors.cpp:243-258 | after the first loop, each cell is overwritten iff its column is listed with a positive proportion and its bit is set; the listed attribute columns are marked used |
| Noise.ExplicitPassFails | source/orange/preprocessors.cpp:246 | a listed variable outside the domain makes the operator fail |
| Noise.DefaultPassCells | source/orange/preprocessors.cpp:261-277 | the second loop masks exactly the unused attribute columns |
| Noise.MaskedOverwriteCharacterised | source/orange/preprocessors.cpp:226-280 | addNoise/addMissing fail iff a listed variable is missing from the domain; otherwise every cell holds its expected value (listed column by its own mask, unused attribute by the default mask, else unchanged) and the shape and metas are kept |
| Noise.NoProportionsNoChange | source/orange/preprocessors.cpp:230-231 | with no proportions and no positive default, the rows come back unchanged |
| Noise.ExplicitLoop | source/orange/preprocessors.cpp:371-386 | the first in-place loop computes the explicit pass on the table and the attributeUsed array |
| Noise.DefaultLoop | source/orange/preprocessors.cpp:389-405 | the second in-place loop computes the default pass |
| Noise.MaskedOverwriteLoops | source/orange/preprocessors.cpp:226-280 | the shared body runs both loops on a copy of the table and yields the masked rows |
| Noise.AddNoise | source/orange/preprocessors.cpp:226-280 | masked cells get the variable's random values; the weight id is unchanged |
| Noise.AddMissing | source/orange/preprocessors.cpp:354-408 | masked cells become special values of the given kind and of the variable's type |
| Noise.ExplicitDeviationsSucceeds | source/orange/preprocessors.cpp:311-322 | the deviation list fails iff a listed variable is not continuous or not in the domain |
| Noise.ExplicitDeviationsPairs | source/orange/preprocessors.cpp:317-318 | each explicit pair is the variable's position and its deviation, in map order |
| Noise.ExplicitDeviationsUsed | source/orange/preprocessors.cpp:320-321 | exactly the listed attributes are marked used |
| Noise.DefaultDeviationsSound | source/orange/preprocessors.cpp:324-332 | every default pair is an unused continuous attribute with the default deviation |
| Noise.DefaultDeviationsIncreasing | source/orange/preprocessors.cpp:327-331 | the default pairs are in increasing position order |
| Noise.DefaultDeviationsComplete | source/orange/preprocessors.cpp:327-331 | every unused continuous attribute gets a default pair |
| Noise.GaussianPlanCharacterised | source/orange/preprocessors.cpp:300-336 | a plain copy when there are no deviations and no positive default; otherwise the explicit pairs followed by the default pairs for exactly the unlisted continuous attributes (none when the default is 0), or the error |
| Noise.ExplicitDeviationLoop | source/orange/preprocessors.cpp:311-322 | the first loop computes the explicit pairs and marks attributeUsed |
| Noise.DefaultDeviationLoop | source/orange/preprocessors.cpp:324-332 | the second loop computes the default pairs |
| Noise.AddGaussianNoise | source/orange/preprocessors.cpp:300-336 | the operator hands the planned deviations to the noise generator, or fails |
| Noise.MaskClassCells | source/orange/preprocessors.cpp:432-437 | masking the class changes only the masked class cells |
| Noise.AddClassNoise | source/orange/preprocessors.cpp:417-442 | the loop over the random indices computes the class-noise table |
| Noise.ClassNoiseCharacterised | source/orange/preprocessors.cpp:417-442 | it fails with class-less iff there is no class, and with discrete-class-expected iff the class is not discrete; otherwise exactly the masked class cells get random values when the proportion is positive |
| Noise.AddGaussianClassNoise | source/orange/preprocessors.cpp:451-471 | it fails iff there is no class or the class is not continuous; noise is planned iff the deviation is positive, as the single pair (class slot, deviation) |
| Noise.AddMissingClasses | source/orange/preprocessors.cpp:480-504 | the loop computes the missing-classes table |
| Noise.MissingClassesCharacterised | source/orange/preprocessors.cpp:480-504 | it fails iff the domain is class-less; otherwise exactly the masked class cells become special values when the proportion is positive |
| ClassWeight.CountPositiveWitness | source/orange/preprocessors.cpp:567-571 | one class with positive mass makes noNullClasses positive |
| ClassWeight.WeightVectorGuards | source/orange/preprocessors.cpp:522-545 | the guards in order: class-less or non-discrete; the no-op (weight id 0) when there are no weights without equalize, or no classes; the class weight size mismatch; out-of-range classes in the distribution; the length of the weight vector |
| ClassWeight.DotScale | source/orange/preprocessors.cpp:561-563 | scaling the weights by fact scales the weighted mass by fact |
| ClassWeight.EqualizeWithWeightsMass | source/orange/preprocessors.cpp:547-564 | the regime is a no-op iff total is 0; otherwise the rescaled weights weigh the distribution to tot_w times abs |
| ClassWeight.EqualizedClassMass | source/orange/preprocessors.cpp:566-578 | with equalization only, every class with mass gets abs/noNullClasses after reweighting |
| ClassWeight.EqualizedTotalMass | source/orange/preprocessors.cpp:566-578 | with equalization only and no negative mass, the reweighted distribution still sums to abs |
| ClassWeight.EqualizedExample | source/orange/preprocessors.cpp:566-578 | the distribution {30, 10, 0} gets the weights 40/2/30, 2 and 1 |
| ClassWeight.ReweightRowsSucceeds | source/orange/preprocessors.cpp:585-586 | the final loop succeeds iff every row's class is a known value that indexes the weight vector |
| ClassWeight.ReweightRowsValues | source/orange/preprocessors.cpp:585-586 | each row keeps its values and gets, under the new id, its old weight times its class's weight |
| ClassWeight.WeightsOnlyRows | source/orange/preprocessors.cpp:581-586 | with weights only, the new weight of each row is WEIGHT times classWeights[class] under the fresh id |
| ClassWeight.WeightedTotals | source/orange/preprocessors.cpp:548-555 | the loop computes total = Σ dist·cw and tot_w = Σ cw over the distribution's length |
| ClassWeight.Mass | source/orange/preprocessors.cpp:572 | abs is the distribution's sum |
| ClassWeight.ScaleWeights | source/orange/preprocessors.cpp:562-563 | every weight is multiplied by fact |
| ClassWeight.EqualizeOnly | source/orange/preprocessors.cpp:566-578 | the two loops give N/noNullClasses/d for each class with mass and 1 otherwise |
| ClassWeight.ApplyWeights | source/orange/preprocessors.cpp:584-586 | the in-place loop sets each row's new weight meta as the fold specifies, or stops at an out-of-range class |
| ClassWeight.AddClassWeight | source/orange/preprocessors.cpp:520-589 | the operator equals ClassWeights: the guards, the chosen regime's weight vector, and the reweighted copy under the fresh id |
| Censor.DefaultCensorWeight | source/orange/preprocessors.cpp:596-603 | the default: no variables, an unset event value, km, maxTime 0, no complement |
| Censor.NewCensorWeightIgnoresMaxTime | source/orange/preprocessors.cpp:606-613 | the constructor as written gives maxTime 0 whatever mt is |
| Censor.NewCensorWeightCorrectedKeepsArguments | source/orange/preprocessors.cpp:606-613 | the corrected constructor keeps every argument, mt included |
| Censor.Emit | source/orange/preprocessors.cpp:615-627 | addExample appends the row with the weight, plus the complement copy with the complementary class and compWeight iff complementary >= 0 and compWeight > 0 |
| Censor.CensorPositionsGuards | source/orange/preprocessors.cpp:632-657 | each guard fails iff its condition holds, in source order; on success the indices are the outcome's and time's positions, failIndex is the event's value, and complementary is the event value or -1 |
| Censor.CensorRowEvent | source/orange/preprocessors.cpp:681-682 | an event row keeps its weight under the new id and has no complement |
| Censor.CensorRowFails | source/orange/preprocessors.cpp:683-687 | a row fails iff it is not an event and its time is not continuous, with "invalid time" |
| Censor.CensorRowMissingTime | source/orange/preprocessors.cpp:689 | a non-event row with an unknown time is dropped |
| Censor.LinearFactorBounds | source/orange/preprocessors.cpp:690 | the linear factor min(1, t/max) lies in [0, 1] for t >= 0 and is 1 from max on |
| Censor.LinearFactorScenario | source/orange/preprocessors.cpp:690 | the factor is 1 at the max time and 0.5 at half of it |
| Censor.LinearCensoredRow | source/orange/preprocessors.cpp:684-690 | a linear censored row is emitted once, with the same values and weight w·min(1, t/max), between 0 and w |
| Censor.SurvivalLateTime | source/orange/preprocessors.cpp:715-716 | with km or bayes, a row after maxTime keeps its weight and gets no complement |
| Censor.KmDropsExhaustedCurve | source/orange/preprocessors.cpp:718-725 | with km, a row at a time where S(t) <= 0 contributes no rows |
| Censor.SurvivalSplit | source/orange/preprocessors.cpp:718-729 | a censored row gets weight w·f (f = S_max/S(t) for km, S(t) for bayes); the complement with w·(1−f) appears iff complementary is set and w·(1−f) > 0, and the two weights sum to w |
| Censor.CensorRowShape | source/orange/preprocessors.cpp:615-627 | the loop body emits at most two rows; the first keeps the values, and a second differs only in the class |
| Censor.ComplementPositive | source/orange/preprocessors.cpp:723-728 | a positive weight with an own share below 1 leaves a positive complement weight |
| Censor.CensorRowsSucceeds | source/orange/preprocessors.cpp:679-733 | the row loop succeeds iff every row does, and its only error is "invalid time" |
| Censor.CensorRowsCount | source/orange/preprocessors.cpp:679-733 | the loop emits at most 2n rows, and at most n with the linear method |
| Censor.MaxTimeScanBounds | source/orange/preprocessors.cpp:664-673 | the scan fails iff a known time is not continuous; otherwise the result is at least the start, bounds every known time and is the start or one of them |
| Censor.ScanMaxTime | source/orange/preprocessors.cpp:664-673 | the scan loop over a table computes MaxTimeScan |
| Censor.AddExampleTo | source/orange/preprocessors.cpp:615-627 | the table gets exactly the rows addExample emits |
| Censor.CensorLoop | source/orange/preprocessors.cpp:679-691 | the loop over gen appends the fold's rows to the table, or stops with its error |
| Censor.ResolvePositions | source/orange/preprocessors.cpp:632-657 | the guards compute CensorPositions |
| Censor.LinearLoop | source/orange/preprocessors.cpp:662-692 | the linear branch: the horizon scan over the table, the max<=0 error, then the row loop |
| Censor.AddCensorWeight | source/orange/preprocessors.cpp:630-740 | the operator equals CensorWeight, the as-written model of all three methods and the unknown-method error |
| Censor.LinearWithoutMaxTimeFails | source/orange/preprocessors.cpp:662-677 | as written, linear without a positive maxTime always fails with max<=0 |
| Censor.BayesGuardNeverFires | source/orange/preprocessors.cpp:696-697 | as written, no input produces the "maxTime should be set for Bayes" error |
| Censor.MissingOutcomeCensored | source/orange/preprocessors.cpp:706-728 | as written, a row with an unknown outcome is treated as censored and can get a complement in the event class |
| Censor.CorrectedLinearFindsMaxTime | source/orange/preprocessors.cpp:662-677 | corrected: a positive known time in the data avoids the max<=0 error |
| Censor.CorrectedBayesNeedsMaxTime | source/orange/preprocessors.cpp:696-697 | corrected: bayes without a positive maxTime is refused |
| Censor.CorrectedUnknownOutcomesVanish | source/orange/preprocessors.cpp:679-733 | corrected: when no outcome is known, km and bayes yield no rows |
| Censor.CorrectedIsWrittenOnKnownOutcomes | source/orange/preprocessors.cpp:679-733 | corrected, on any mix of rows: km, and bayes with a positive maxTime, give what the operator as written gives on the rows whose outcome is known |

## Left out

- Meta attributes other than weights are not modelled. A row's metas are a `map<int, real>` of weights, and a weight id with no meta reads as weight 1.
- The payload of a special value is 0 in the model; only its type and kind are kept.
- Variables are compared by value; the source compares references.
- Floats are modelled as reals. There is no rounding and no single-precision overflow.
- `TMakeRandomIndices2`, `randomValue()` and the Gaussian noise generator are inputs. Masks stand for the random index lists and `drawn` for random values. Gaussian noise ends at the list of (position, deviation) pairs handed to the generator; the noise itself is not drawn.
- `getClassDistribution` is the input `dist`, and `kaplanMeier`/`bayesSurvival` are the input curve `survival` with `curveLast`. `getMetaID()` is the input `freshId`.
- The filter evaluator (`TFilter_values`, `TFilter_hasSpecial`, `TFilter_hasClassValue` and user filters) is the input `accepts`. Drop and take are proved to split the rows only for an evaluator under which negation inverts the verdict.
- `removeDuplicates` is modelled only up to the weight channel it hands to `TExampleTable::removeDuplicates`, which is not part of this model. The grouping of equal rows is left out.
- `discretize` is modelled up to the column indices it passes; `TDiscretizedDomain` and the discretization method are not part of this model.
- `TExample::setClass` is taken to write the last cell of the row, and `addExample`'s default `compWeight` is taken to be 0. These are assumptions, because the header declaring them is not part of this model. Under them the linear method never adds a complement row.
- Data.GetVarNum: the exception form of `getVarNum` (the default) is modelled as `AttributeNotFound`, and meta variables (negative positions) are not found.
- ClassWeight.ReweightRows: a row whose class indexes past the weight vector reads out of bounds in the source, and a row with an unknown class indexes the vector with a special value's payload, which is no class index. The model stops with `ClassIndexOutOfRange` in both cases.
- ClassWeight.WeightedTotals: `tot_w` sums only the first |dist| class weights, as the loop runs over the distribution. The documentation says tot_w is the sum of all the class weights; the model follows the code.
- Columns.DiscretizeIds: asking to discretize the class of a class-less domain dereferences a null pointer in the source. The model fails with `ClassLessDomain`.
- The documentation says the linear method takes the maximal time from the data and that rows with an unknown outcome are dropped. The code does neither; the model follows the code, and the corrected behaviour is listed under Findings.

## Findings

| source | as written | input that shows it | evidently intended | confidence | as-written member | corrected member |
|---|---|---|---|---|---|---|
| source/orange/preprocessors.cpp:606-613 | the constructor sets maxTime to 0 and ignores its argument `mt` | `TPreprocessor_addCensorWeight(ov, tv, ev, bayes, 10.0)` has maxTime 0 | maxTime takes `mt` | high; not executed | Censor.NewCensorWeightIgnoresMaxTime | Censor.NewCensorWeightCorrectedKeepsArguments |
| source/orange/preprocessors.cpp:659-677 | the linear max-time scan iterates over the new, still empty output table, so maxTime <= 0 always ends in "invalid time values (max<=0)" | linear, maxTime 0, rows with known times 1.0 and 2.0: fails instead of using max 2.0 | the scan runs over the input rows | high; not executed | Censor.LinearWithoutMaxTimeFails | Censor.CorrectedLinearFindsMaxTime |
| source/orange/preprocessors.cpp:696-697 | the guard tests the constants `km==bayes`, which are different, so it never fires | bayes with maxTime 0: no error; every row with time > 0 keeps its weight | the guard tests `method==bayes` | high; not executed | Censor.BayesGuardNeverFires | Censor.CorrectedBayesNeedsMaxTime |
| source/orange/preprocessors.cpp:681-706 | a row with an unknown outcome fails the event test and is weighted as censored | bayes, addComplementary, a row with unknown outcome, time t <= maxTime, S(t) = 0.5, weight 1: two rows, the second in the event class with weight 0.5 | rows with an unknown outcome are left out | medium; not executed | Censor.MissingOutcomeCensored | Censor.CorrectedIsWrittenOnKnownOutcomes |
