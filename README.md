# SOM reduction engine: a Dafny model

This project models the computational core of the SOM (Sufficiency Of Measures) tool of
`protect_baltic`. That core estimates how far a set of measures lowers the pressures on, and
the states of, the Baltic Sea. The model covers three parts:

- **Distribution synthesis and ingestion rules** (`som_tools.py`):
  - a PERT sample (`pert_dist`);
  - pooling of expert answers into a 101-bucket histogram (`get_prob_dist`, `get_dist_from_picks`);
  - picking one grid value from such a histogram (`get_pick`);
  - the row-level rules of the survey and sheet readers: expert-id columns, question-block
    column ranges, rescaling by the stated maximum effectiveness, effectiveness bounds,
    pressure shares and their min/max interval, `;`-separated ids, the NaN defaults, the
    scenario "+1" and the subpressure multiplier.
- **The table engine** (`som/som_app.py`):
  - `build_links`: links with a sampled reduction and overlap multipliers;
  - `build_scenario`: development scenarios applied to activity contributions;
  - `build_cases`: expansion of wildcard cases and the link filter;
  - `build_changes`: per-area pressure and state levels, and the GES threshold tables.
- **The timer and the progress bar** (`utilities.py`).

Modules and files:

| file | module | models |
|---|---|---|
| `wrappers.dfy` | `Wrappers` | `Option` (NaN is `None`) and `Result` (a raised exception is `Failure`) |
| `numeric.dfy` | `Numeric` | Python `int()`, float `//` and `%`, rounding, sums and products over tables |
| `text.dfy` | `Text` | decimal formatting (`%d`, `{:02d}`) and parsing of digit strings |
| `sequences.dfy` | `Sequences` | order-preserving selection (a subsequence), for the filters |
| `distributions.dfy` | `Distributions` | `pert_dist`, `get_prob_dist`, `get_dist_from_picks`, `get_pick` |
| `survey.dfy` | `MeasureSurvey` | expert ids, column ranges, rescaling, effectiveness bounds |
| `pressures.dfy` | `PressureSurvey` | pressure shares per expert, their collection, the min/max interval |
| `readers.dfy` | `Readers` | `;` id splitting, NaN defaults, scenario multiplier, `assign_multiplier` |
| `links.dfy` | `Links` | `build_links` |
| `scenario.dfy` | `Scenario` | `build_scenario` |
| `cases.dfy` | `Cases` | `build_cases` |
| `changes.dfy` | `Changes` | `build_changes` |
| `utilities.dfy` | `Utilities` | `Timer`, `display_progress`'s bar |

How the model is built:

- **State.** Code that updates state step by step is modelled as methods with loops, proved
  against specification functions. This covers the overlap loops, the per-cell subtraction
  loops over `array2` tables, the in-place scenario rewrite of an `array`, the histogram
  fill, the pooling loop and the share dictionary. The `Timer` is a class whose `start`
  field `reset` updates.
- **Pure code and randomness.** Expression-level rules are functions with lemmas. The two
  random sources are parameters:
  - `draw(i, alpha, beta, j)` in [0, 1] is the j-th Beta(alpha, beta) sample drawn for
    expert i;
  - `k` is the index `np.random.choice` returned.
- **Following the code.** The model does what the code does. Where the tool's own
  description says otherwise, the code wins:
  - `build_cases` does not deduplicate.
  - Its filter tests the four columns independently.
  - `build_changes` lowers levels by subtraction.
  - The state step subtracts each pressure contribution times that pressure's level, not
    times its reduction.
  - A direct-to-pressure case (activity 0) looks its contribution up like any other case.
    Its `contribution = 1` is overwritten.
  - `get_pick` fails on the `nan` that `get_prob_dist` returns when no expert answered,
    instead of passing the `nan` through.

## Model

| member | source | states |
|---|---|---|
| Numeric.Trunc | protect_baltic/src/som_tools.py:709 | `int()` truncates toward zero: the result is within 1 of x, on x's side of 0 |
| Numeric.FloorDiv | protect_baltic/src/utilities.py:24-25 | float `//` by a positive divisor is the q with q·b ≤ a < q·b + b |
| Numeric.Mod | protect_baltic/src/utilities.py:25-26 | float `%` by a positive divisor lies in [0, b) and completes `//`: a == (a // b)·b + a % b |
| Numeric.Round | protect_baltic/src/som_tools.py:792 | rounding to a whole percentage lands within one half of the value |
| Text.NatToString | protect_baltic/src/utilities.py:31 | `%d` of a non-negative integer is a non-empty digit string without a leading zero |
| Text.ParseNatToString | protect_baltic/src/utilities.py:31 | the decimal rendering reads back as the same number |
| Text.NatToStringParse | protect_baltic/src/som_tools.py:558-560 | a canonical digit string is the rendering of the number it parses to |
| Text.Pad2Nat | protect_baltic/src/utilities.py:35 | `{:02d}` of n is a digit string of at least 2 characters, exactly 2 below 100, reading back as n |
| Distributions.PertShape | protect_baltic/src/som_tools.py:705-712 | α, β ≥ 1, α + β = 6, (α − 1)·r = 4·(peak − low), (β − 1)·r = 4·(high − peak), and the mean is (low + 4·peak + high)/6 |
| Distributions.PertDist | protect_baltic/src/som_tools.py:699-713 | raises iff int(size) < 0; otherwise int(size) samples, all in [low, high]; all equal to peak when low == high, else sample j is low + b·(high − low) for the j-th Beta(α, β) draw b, with α, β the PERT shape of (low, peak, high) |
| Distributions.Stretch | protect_baltic/src/som_tools.py:713 | low + b·r lies in [low, high] for b in [0, 1]; it is low at b = 0 and high at b = 1 |
| Distributions.Sort3 | protect_baltic/src/som_tools.py:734-741 | the (lower, expected, upper) triple comes out ascending and as a permutation of the input |
| Distributions.ExpertSamples | protect_baltic/src/som_tools.py:753-761 | an expert with a NaN in the triple adds nothing; otherwise int(w·5000) samples inside the sorted triple's range |
| Distributions.PooledFailureSticks | protect_baltic/src/som_tools.py:753-761 | once an expert's sampling raises, the whole pooling raises that error |
| Distributions.ProbDist | protect_baltic/src/som_tools.py:716-772 | the pooling loop returns the size-check failure, `nan` when no sample was drawn, or the histogram of the rounded samples |
| Distributions.DistFromPicks | protect_baltic/src/som_tools.py:788-801 | the nested fill loops and the normalisation produce exactly the histogram specification |
| Distributions.CountPicks | protect_baltic/src/som_tools.py:793 | counts how many picks equal a value |
| Distributions.SumCountsSnoc | protect_baltic/src/som_tools.py:796-799 | one more pick adds one to the count of buckets below n iff it falls in them |
| Distributions.SumCountsIsInRange | protect_baltic/src/som_tools.py:796-800 | the 101 bucket counts add up to the number of in-range picks |
| Distributions.SumCountsEmpty | protect_baltic/src/som_tools.py:794 | with no picks every bucket count is 0 |
| Distributions.HistogramIsDistribution | protect_baltic/src/som_tools.py:792-801 | exactly 101 non-negative entries that sum to 1 whenever a pick is in range |
| Distributions.HistogramEntry | protect_baltic/src/som_tools.py:796-800 | entry i times the number of in-range picks is the number of picks equal to i % |
| Distributions.HistogramSumsToOne | protect_baltic/src/som_tools.py:800 | the normalised entries sum to 1 |
| Distributions.HistogramPrefixSum | protect_baltic/src/som_tools.py:800 | the first m entries sum to the share of in-range picks below m % |
| Distributions.OutOfRangePickIgnored | protect_baltic/src/som_tools.py:796-799 | a pick outside [0, 100] % changes no count and no entry |
| Distributions.OneHot | protect_baltic/src/som_tools.py:794-801 | the histogram with all mass on bucket v has 101 entries, 1 at v, sum 1 |
| Distributions.SumOneHot | protect_baltic/src/som_tools.py:800 | a prefix of that histogram sums to 1 iff it contains v |
| Distributions.CountConstant | protect_baltic/src/som_tools.py:793 | n equal picks v give count n at v, 0 elsewhere |
| Distributions.ConstantPicksHistogram | protect_baltic/src/som_tools.py:792-801 | n > 0 picks all equal to v % give all mass on bucket v |
| Distributions.ProbDistSizeCheck | protect_baltic/src/som_tools.py:724 | `get_prob_dist` fails the size assertion iff the four arrays differ in length |
| Distributions.PooledNeverMismatch | protect_baltic/src/som_tools.py:753-761 | the pooling itself never raises the size error |
| Distributions.PooledSize | protect_baltic/src/som_tools.py:753-761 | the pool holds the sum over answered experts of int(w·5000) samples |
| Distributions.NegligibleWeightsGiveNan | protect_baltic/src/som_tools.py:757-765 | when every w·5000 lies in [0, 1) (all weights 0 included) the result is `nan` |
| Distributions.NoSamples | protect_baltic/src/som_tools.py:753-761 | with such weights the pool stays empty |
| Distributions.UnansweredExpertSkipped | protect_baltic/src/som_tools.py:744-759 | appending an expert with a NaN in the triple changes nothing |
| Distributions.SingleCertainExpert | protect_baltic/src/som_tools.py:751-769 | one expert with l = e = u = v and weight 1 puts all mass on bucket v |
| Distributions.GetPick | protect_baltic/src/som_tools.py:775-785 | raises on `nan`, on fewer than 2 buckets, and on a p that `np.random.choice` refuses (a negative entry or a sum other than 1); otherwise k/(n − 1), a value in [0, 1] |
| Distributions.PickReadsBack | protect_baltic/src/som_tools.py:779-783 | on a 101-bucket distribution index k picks k/100, which the histogram puts back in bucket k |
| Distributions.ProbDistPicks | protect_baltic/src/som_tools.py:779-783 | every array `get_prob_dist` returns has 101 buckets and is accepted by `np.random.choice`: each index k picks k/100 |
| MeasureSurvey.ExpertIdsAreNumbers | protect_baltic/src/som_tools.py:15-19 | a column name matches `^(100\|[1-9]?[0-9])$` iff it is the decimal rendering of a number 0..100 |
| MeasureSurvey.ExpertIds | protect_baltic/src/som_tools.py:15-19 | the kept columns are the input columns that are expert ids, in column order (a subsequence), each as many times as it occurs; the others are dropped |
| MeasureSurvey.ColumnRanges | protect_baltic/src/som_tools.py:67-127 | blocks are numbered consecutively; each spans 2·AMT answer columns; the first starts at 1; each starts right after the previous end; the last ends at Σ(2·AMT + 1), the columns the rows take |
| MeasureSurvey.BlockTitles | protect_baltic/src/som_tools.py:81-83 | a block's rows alternate expected value and variance per question, then max effectiveness, then expert weights |
| MeasureSurvey.QuestionTitles | protect_baltic/src/som_tools.py:81 | the question rows alternate expected value and variance |
| MeasureSurvey.ExpertWeight | protect_baltic/src/som_tools.py:105-108 | an empty weight cell becomes 1; a filled one is truncated toward zero to an integer (at most the value when it is non-negative, at least it when negative, within 1) |
| MeasureSurvey.MaxValue | protect_baltic/src/som_tools.py:152 | the NaN-skipping maximum: `nan` iff all NaN, else an element bounding every value |
| MeasureSurvey.DivideAll | protect_baltic/src/som_tools.py:166 | division keeps NaNs and each quotient times the divisor is the original |
| MeasureSurvey.Rescale | protect_baltic/src/som_tools.py:142-166 | rescaling keeps the lengths of an expert's columns |
| MeasureSurvey.RescaleSurvey | protect_baltic/src/som_tools.py:136-166 | the block × expert loop leaves every cell rescaled |
| MeasureSurvey.RescaleSkipsUnanswered | protect_baltic/src/som_tools.py:145-150 | an expert with all expected values or all variances NaN is left unchanged |
| MeasureSurvey.RescaleMissingMaximum | protect_baltic/src/som_tools.py:156-158 | a NaN max effectiveness sets the expert's whole block to NaN |
| MeasureSurvey.RescaleToZero | protect_baltic/src/som_tools.py:159-161 | a max effectiveness of 0 or a block maximum of 0 sets every expected value to 0 and nothing else |
| MeasureSurvey.RescaleReachesMaximum | protect_baltic/src/som_tools.py:162-166 | with the max effectiveness and the block maximum both positive, the block maximum becomes the stated max effectiveness and nothing else changes |
| MeasureSurvey.RescaleScalesAnswers | protect_baltic/src/som_tools.py:164-166 | with both maxima nonzero, every expected value is multiplied by max effectiveness / block maximum and NaN answers stay NaN |
| MeasureSurvey.DivideAllProportional | protect_baltic/src/som_tools.py:164-166 | for nonzero m and e, dividing by m/e scales each value by e/m |
| MeasureSurvey.MaxOfDivided | protect_baltic/src/som_tools.py:152-166 | dividing by a positive k divides the maximum by k |
| MeasureSurvey.LowerBound | protect_baltic/src/som_tools.py:208-216 | the lower bound is NaN iff an input is, and never below 0 |
| MeasureSurvey.UpperBound | protect_baltic/src/som_tools.py:217-225 | the upper bound is NaN iff an input is, and never above 100 |
| MeasureSurvey.BoundsInterior | protect_baltic/src/som_tools.py:211-225 | with 0 ≤ e − v/2 and e + v/2 ≤ 100 the bounds are exactly e ∓ v/2 |
| MeasureSurvey.BoundsAtEdges | protect_baltic/src/som_tools.py:211-225 | at the top edge lower = max(0, 100 − v); at the bottom edge upper = min(100, v); past one edge only, the other bound clamps |
| MeasureSurvey.BoundsOrdered | protect_baltic/src/som_tools.py:207-225 | for v ≥ 0 the lower bound never exceeds the upper |
| MeasureSurvey.QuestionBounds | protect_baltic/src/som_tools.py:207-225 | the row loop fills both bound rows for every expert |
| PressureSurvey.Named | protect_baltic/src/som_tools.py:416-418 | the answers kept are those naming a pressure, in answer order (a subsequence), each as many times as it occurs; the others are dropped |
| PressureSurvey.DivideBy | protect_baltic/src/som_tools.py:429 | each share times the expert's total is the weighted significance |
| PressureSurvey.SumScale | protect_baltic/src/som_tools.py:421-425 | weighting multiplies the expert's total by the weight |
| PressureSurvey.SumDivideBy | protect_baltic/src/som_tools.py:425-429 | the shares' sum times the total is the total |
| PressureSurvey.ExpertShares | protect_baltic/src/som_tools.py:424-429 | one share per named pressure, keyed by int(pressure); every share is NaN or infinite (None) iff a named pressure lacks its significance or the total is 0; otherwise share i is weighted significance i over the total |
| PressureSurvey.SharesSumToOne | protect_baltic/src/som_tools.py:425-429 | when every named pressure has a significance and the total is nonzero, an expert's shares s/s_tot sum to 1 |
| PressureSurvey.WeightCancels | protect_baltic/src/som_tools.py:420-429 | the expert weight cancels out of the shares: any two nonzero weights give the same shares |
| PressureSurvey.CollectShares | protect_baltic/src/som_tools.py:423-429 | the expert × answer loop builds exactly the specified dictionary of share lists |
| PressureSurvey.AppendShares | protect_baltic/src/som_tools.py:426-429 | the inner loop appends each (pressure, share) pair to its pressure's list, creating the list when the pressure is new |
| PressureSurvey.CollectedKeys | protect_baltic/src/som_tools.py:427-428 | a pressure is a key iff some expert named a pressure that truncates to it |
| PressureSurvey.SharedPressures | protect_baltic/src/som_tools.py:426-429 | an expert's shares mention a pressure iff one of their answers names it |
| PressureSurvey.AddSharesKeys | protect_baltic/src/som_tools.py:427-428 | one expert's pass adds exactly the pressures they named |
| PressureSurvey.Interval | protect_baltic/src/som_tools.py:434-445 | width 2·sd; min 0 when avg − sd ≤ 0; max ≤ 1 when avg − sd > 0; exactly avg ∓ sd inside [0, 1] |
| PressureSurvey.ContributionDistSucceeds | protect_baltic/src/som_tools.py:446-449 | the contribution distribution of a pressure never raises, whatever the beta draws |
| Readers.FirstIndex | protect_baltic/src/som_tools.py:556 | the first position of the separator |
| Readers.Split | protect_baltic/src/som_tools.py:556 | `str.split` gives at least one piece and no piece holds the separator |
| Readers.JoinSplit | protect_baltic/src/som_tools.py:556 | joining the pieces with the separator gives the string back |
| Readers.SplitJoin | protect_baltic/src/som_tools.py:556 | splitting a join of separator-free pieces gives the pieces back |
| Readers.NonEmpty | protect_baltic/src/som_tools.py:556 | `filter(None, …)` keeps exactly the non-empty pieces |
| Readers.SplitIds | protect_baltic/src/som_tools.py:555-557 | every id piece is non-empty and free of `;` |
| Readers.SplitIdsKeepsCharacters | protect_baltic/src/som_tools.py:555-557 | the pieces hold every character of the cell except the `;` |
| Readers.ConcatNonEmpty | protect_baltic/src/som_tools.py:556 | dropping empty pieces loses no character |
| Readers.ConcatSplit | protect_baltic/src/som_tools.py:556 | the split pieces hold every character except the separator |
| Readers.SplitIdsJoin | protect_baltic/src/som_tools.py:555-557 | a cell written as `;`-joined ids splits back into those ids |
| Readers.NonEmptyKeepsFull | protect_baltic/src/som_tools.py:556 | pieces that are all non-empty pass the filter unchanged |
| Readers.ParseIds | protect_baltic/src/som_tools.py:558-560 | every piece is converted to its integer, or the conversion fails on a non-numeric piece |
| Readers.CellIds | protect_baltic/src/som_tools.py:555-560 | an empty cell raises; a number cell stays one id; a text cell succeeds iff its non-empty `;` pieces exist and are all digit strings, and then gives their values in order |
| Readers.CellIdsRoundTrip | protect_baltic/src/som_tools.py:555-560 | a cell written as `;`-joined ids reads back as those ids |
| Readers.ParseRendered | protect_baltic/src/som_tools.py:558-560 | rendered ids parse back unchanged |
| Readers.IdOrZero | protect_baltic/src/som_tools.py:657-660 | an empty id cell becomes 0, a filled one its integer part truncated toward zero (for either sign); a whole number is kept as it is |
| Readers.IdOrZeroWhole | protect_baltic/src/som_tools.py:657-660 | a whole-number id is kept |
| Readers.EmptyChangesKeepRows | protect_baltic/src/som_tools.py:631-639 | a scenario column whose change cells are all empty (filled with 0, then 1 added) leaves every activity contribution of the scenario unchanged |
| Readers.ChangeScalesActivity | protect_baltic/src/som_tools.py:631-639 | a contribution whose activity first appears at scenario row k is multiplied by 1 + c when that row's change is c, and is kept as it is when the change cell is empty |
| Readers.ContributionAnswer | protect_baltic/src/som_tools.py:604-610 | missing bounds fall back to the expected value, the weight is 1, and the answer counts iff the expected value is present |
| Readers.OnlyMostLikely | protect_baltic/src/som_tools.py:604-613 | an answer with only a most likely value e yields 5000 copies of e |
| Readers.AssignMultiplier | protect_baltic/src/som_tools.py:684-694 | an equivalence ≤ 1 is its own multiplier; anything else (NaN included) gives 0 |
| Readers.MultiplierIsFraction | protect_baltic/src/som_tools.py:684-694 | for a non-negative equivalence the multiplier lies in [0, 1] |
| Links.HasDuplicate | protect_baltic/src/som/som_app.py:134 | reports a duplicate iff two rows share (measure, activity, pressure, state) |
| Links.UniqueMeasures | protect_baltic/src/som/som_app.py:150 | the measures of the links, each once |
| Links.PickReductions | protect_baltic/src/som/som_app.py:139-144 | raises iff some distribution cannot be picked from; otherwise every row carries its pick and multiplier 1 |
| Links.ApplyOverlap | protect_baltic/src/som/som_app.py:154-163 | one overlap multiplies exactly the links its query selects |
| Links.ApplyMeasure | protect_baltic/src/som/som_app.py:152-163 | one measure's overlaps are applied in table order |
| Links.BuiltMultipliers | protect_baltic/src/som/som_app.py:150-163 | after every measure in use, each link's multiplier is the product over applicable overlaps |
| Links.BuildLinks | protect_baltic/src/som/som_app.py:121-165 | fails iff keys repeat or a pick fails; otherwise one link per row with its ids, its picked reduction and the product of the multipliers of the overlaps that apply |
| Links.SelectedPermutesRestrict | protect_baltic/src/som/som_app.py:150-153 | the overlaps the loops visit are a reordering of those whose overlapping measure is in use |
| Links.SelectedIsRestricted | protect_baltic/src/som/som_app.py:150-163 | applying overlaps measure by measure equals the product over the whole overlap table |
| Links.RestrictProduct | protect_baltic/src/som/som_app.py:152-163 | the product over the visited overlaps equals the product over all with inactive ones counting 1 |
| Links.UnmatchedKeepsOne | protect_baltic/src/som/som_app.py:144-163 | a link no applicable overlap selects keeps multiplier 1 |
| Links.OverlapOrderIrrelevant | protect_baltic/src/som/som_app.py:150-163 | reordering the overlap table leaves every multiplier unchanged |
| Links.OverlapsCompose | protect_baltic/src/som/som_app.py:163 | several overlaps compose by product |
| Links.InactiveOverlapIgnored | protect_baltic/src/som/som_app.py:150-153 | an overlap whose overlapping measure is not in use changes nothing |
| Links.WildcardActivity | protect_baltic/src/som/som_app.py:159-162 | activity 0 selects every activity; a nonzero activity only its own |
| Scenario.DevMultiplierMissing | protect_baltic/src/som/som_app.py:184-189 | an activity without a scenario row gets multiplier 1 |
| Scenario.DevMultiplierFirst | protect_baltic/src/som/som_app.py:184-189 | otherwise it gets its first row's multiplier |
| Scenario.Scaled | protect_baltic/src/som/som_app.py:190 | scaling keeps the number of rows |
| Scenario.Normalized | protect_baltic/src/som/som_app.py:201-204 | normalising keeps the number of rows |
| Scenario.GroupSums | protect_baltic/src/som/som_app.py:176-181 | the pass computes the total of every (pressure, area) group |
| Scenario.ScaleByScenario | protect_baltic/src/som/som_app.py:184-190 | every value is multiplied in place by its activity's multiplier |
| Scenario.Normalize | protect_baltic/src/som/som_app.py:193-204 | every value is multiplied in place by 1 + scaled group total − original group total |
| Scenario.BuildScenario | protect_baltic/src/som/som_app.py:168-206 | the table is overwritten in place with the scaled, normalised values |
| Scenario.ScenarioKeepsKeys | protect_baltic/src/som/som_app.py:190-204 | only the values change: rows, activities, pressures and areas stay |
| Scenario.MissingScenarioIsNeutral | protect_baltic/src/som/som_app.py:186-190 | a row whose activity has no scenario row is not scaled |
| Scenario.NeutralScenario | protect_baltic/src/som/som_app.py:176-204 | when every multiplier is 1 the table is unchanged |
| Scenario.NormalizedGroupSum | protect_baltic/src/som/som_app.py:196-204 | normalising multiplies a group's total by its factor |
| Scenario.ScenarioGroupSum | protect_baltic/src/som/som_app.py:176-204 | a group's final total is S·(1 + S − A), S its scaled and A its original total |
| Cases.Distinct | protect_baltic/src/som/som_app.py:225 | `unique()`: the same values, each once |
| Cases.LinksOf | protect_baltic/src/som/som_app.py:220 | exactly the links of the case's measure |
| Cases.Choices | protect_baltic/src/som/som_app.py:225 | a zero field ranges over the column's values, a nonzero one is kept |
| Cases.BuildCases | protect_baltic/src/som/som_app.py:209-241 | the row loop and the filter give the expanded cases that pass the filter, in order |
| Cases.PerPressureMembership | protect_baltic/src/som/som_app.py:226-227 | exploding the state column gives one row per state |
| Cases.PerActivityMembership | protect_baltic/src/som/som_app.py:226-227 | exploding pressure then state gives one row per combination |
| Cases.ProductMembership | protect_baltic/src/som/som_app.py:226-227 | the three explodes give exactly the rows with a chosen activity, pressure and state and the case's other fields |
| Cases.PerPressureLength | protect_baltic/src/som/som_app.py:226-227 | one row per state |
| Cases.PerActivityLength | protect_baltic/src/som/som_app.py:226-227 | one row per (pressure, state) |
| Cases.ProductLength | protect_baltic/src/som/som_app.py:226-227 | one row per (activity, pressure, state) |
| Cases.LinksOfNone | protect_baltic/src/som/som_app.py:220-221 | a measure without links selects no links |
| Cases.DroppedWithoutLinks | protect_baltic/src/som/som_app.py:221-223 | a case whose measure has no link is dropped |
| Cases.ExpandMembership | protect_baltic/src/som/som_app.py:219-227 | a case expands iff its measure has links, into rows that copy it, keep nonzero fields, and range zero fields over its links' values |
| Cases.ColumnOfMeasure | protect_baltic/src/som/som_app.py:220-225 | a value is in the measure's column iff one of its links has it |
| Cases.ConcreteCaseKept | protect_baltic/src/som/som_app.py:225-227 | a fully given case of a linked measure expands to itself |
| Cases.FilteredMembership | protect_baltic/src/som/som_app.py:232-237 | a row is kept iff each of its four ids occurs in the corresponding links column |
| Cases.FilterKeepsRepeats | protect_baltic/src/som/som_app.py:232-239 | no deduplication: passing rows are kept as they are, repeats included |
| Cases.FilterAdmitsUnlinkedRow | protect_baltic/src/som/som_app.py:232-237 | a row can pass although no single link has its four ids |
| Cases.ExpandAllMembership | protect_baltic/src/som/som_app.py:219-227 | an expanded row comes from some case |
| Cases.BuildCasesSound | protect_baltic/src/som/som_app.py:219-237 | every returned row passes the filter and comes from some case's expansion |
| Changes.Areas | protect_baltic/src/som/som_app.py:250 | the areas of the cases, each once |
| Changes.FirstRow | protect_baltic/src/som/som_app.py:326-327 | the first pressure row with the id |
| Changes.NewTable | protect_baltic/src/som/som_app.py:255-256 | every cell of a new table is 1.0 |
| Changes.PressureCell | protect_baltic/src/som/som_app.py:270-293 | one cell loses the sum of its cases' terms; no other cell changes |
| Changes.SubtractPressureCases | protect_baltic/src/som/som_app.py:268-293 | every pressure cell loses the sum over its area's cases of reduction·multiplier·coverage·implementation·contribution |
| Changes.StateCell | protect_baltic/src/som/som_app.py:305-317 | one state cell loses its direct cases' reductions; no other cell changes |
| Changes.SubtractStateCases | protect_baltic/src/som/som_app.py:302-317 | every state cell loses the reductions of its area's direct-to-state cases |
| Changes.ContributionCell | protect_baltic/src/som/som_app.py:322-329 | one state cell loses average × the current level of each contributing pressure |
| Changes.SubtractContributions | protect_baltic/src/som/som_app.py:320-329 | every state cell loses, for every contribution row of its state, average × that pressure's level in the area |
| Changes.GesTable | protect_baltic/src/som/som_app.py:332-344 | a GES table holds the first matching threshold row's value, or 1.0 |
| Changes.BuildChanges | protect_baltic/src/som/som_app.py:244-352 | raises iff there is an area and a contribution row of a tabled state names an unknown pressure; otherwise the pressure, state and four GES tables hold the specified levels |
| Changes.MissingPressureId | protect_baltic/src/som/som_app.py:326-327 | the pressure whose lookup raises is not in the pressure table |
| Changes.FindLinkFirst | protect_baltic/src/som/som_app.py:274-281 | a case finds the first link with its exact (measure, activity, pressure, state) |
| Changes.FindLinkMissing | protect_baltic/src/som/som_app.py:274-277 | a case with no exactly matching link finds none |
| Changes.FindLinkIn | protect_baltic/src/som/som_app.py:274-281 | a found link is a table row matching the case |
| Changes.ContributionFirst | protect_baltic/src/som/som_app.py:288-292 | the contribution is the first (activity, pressure, area) row's value |
| Changes.ContributionMissing | protect_baltic/src/som/som_app.py:288-290 | without such a row the contribution is 0 |
| Changes.ContributionNonnegative | protect_baltic/src/som/som_app.py:288-292 | non-negative contribution rows give a non-negative contribution |
| Changes.GesDefault | protect_baltic/src/som/som_app.py:335-340 | a (state, area) without a threshold row keeps 1.0 in every GES table |
| Changes.GesFromFirstRow | protect_baltic/src/som/som_app.py:339-344 | otherwise every GES table takes the first matching row's value |
| Changes.NoCasesNoPressureChange | protect_baltic/src/som/som_app.py:255-293 | with no cases every pressure level stays 1 |
| Changes.UnlinkedCaseChangesNothing | protect_baltic/src/som/som_app.py:276-312 | a case with no exactly matching link changes no pressure and no state level |
| Changes.OneCase | protect_baltic/src/som/som_app.py:279-293 | a single matching case lowers its pressure by reduction·multiplier·coverage·implementation·contribution |
| Changes.DirectPressureCaseWithoutContribution | protect_baltic/src/som/som_app.py:284-292 | a case with activity 0 contributes nothing unless the contribution table has an activity-0 row |
| Changes.CaseOrderIrrelevant | protect_baltic/src/som/som_app.py:268-329 | reordering the cases changes no pressure and no state level |
| Changes.PressureLevelAtMostOne | protect_baltic/src/som/som_app.py:293 | with non-negative inputs no pressure level exceeds 1 |
| Changes.StateWithoutCases | protect_baltic/src/som/som_app.py:320-329 | with no cases a state still drops by the sum of its pressures' average contributions |
| Utilities.SplitDuration | protect_baltic/src/utilities.py:22-27 | for d ≥ 0: hours·3600 + minutes·60 + seconds == d, with hours ≥ 0 and minutes and seconds in [0, 60) |
| Utilities.MinutesAgree | protect_baltic/src/utilities.py:24-26 | `(d % 3600) // 60` is the minute count that `d % 60` completes |
| Utilities.Timer.constructor | protect_baltic/src/utilities.py:15-16 | the timer starts at the clock reading |
| Utilities.Timer.Reset | protect_baltic/src/utilities.py:36-38 | `reset` restarts the timer at the clock reading |
| Utilities.Timer.GetTime | protect_baltic/src/utilities.py:20-27 | the elapsed time decomposed into hours, minutes below 60 and seconds below 60 |
| Utilities.ResetThenTimePassed | protect_baltic/src/utilities.py:17-38 | whatever the timer's earlier start, after `reset` at t, `time_passed` at t' returns t' − t |
| Utilities.DurationTextDecomposes | protect_baltic/src/utilities.py:28-31 | '%d h %d min %d sec' shows whole hours, minutes < 60 and seconds < 60 that make up the whole seconds elapsed |
| Utilities.WholeSeconds | protect_baltic/src/utilities.py:22-27 | the truncated seconds complete hours and minutes to the whole seconds elapsed |
| Utilities.HhmmssReadsBack | protect_baltic/src/utilities.py:32-35 | '[hh:mm:ss]' has digit fields, minutes and seconds exactly 2 wide, reading back as the whole seconds elapsed |
| Utilities.ProgressBarShape | protect_baltic/src/utilities.py:61-63 | for a completion in [0, 1] the bar is exactly `size` characters: int(size·completion) '#' then '.' |
| Utilities.ProgressLineReadsBack | protect_baltic/src/utilities.py:61-63 | for a completion in [0, 1] the line is the text, the bracketed bar, and a percentage field of at least two digits (exactly two below completion 1) reading back as int(completion·100), then " %" and a carriage return |

## Left out

- Excel reading and sheet reshaping are not modelled; the rules above work on plain sequences passed in. This covers `read_excel`, the transposes, concatenations and explodes of `process_measure_survey_data` and `process_pressure_survey_data`, the category-id parsing of the survey sheets (`som_tools.py:92-103`), `read_ids` and the header regex plumbing.
- `process_input_data` (`som_app.py:18-118`) is file orchestration and depends on `link_area_ids`, which is not part of this model.
- `__main__.py` is not part of this model. It holds configuration, file-system setup, the multiprocessing pool and the Excel export.
- `plot_dist` (matplotlib) is not modelled.
- The unused cumulative sum at `som_tools.py:770` is not modelled.
- `exception_traceback`, `fail_with_message` and the standard-output writes of `display_progress` are I/O and not modelled. The clock `time.perf_counter()` is the parameter `now`.
- The Beta generator and `np.random.choice` are parameters (`draw`, `k`). The model states what holds for every possible draw, not the draws' probability law.
- Floating point is not modelled: values are reals. Picks are whole percentages, so the exact float comparison `i / 100.0 == unique[k]` is exact here.
- Numeric.Round: rounds halves upward. NumPy's `np.round` rounds halves to even, and the two differ only on exact halves.
- PressureSurvey.Interval: takes `np.mean` and `np.std` of the shares as inputs rather than computing the square root.
- PressureSurvey.CollectShares: the dictionary is a Dafny `map`, so the insertion order that fixes the order of the output pressure list is not modelled.
- Readers.ParseIds: accepts only plain digit strings. Python's `int()` also accepts surrounding blanks, a sign and underscores.
- Distributions.ProbDist: when no rounded pick equals a grid value i/100 (a pick outside [0, 1]), `dist / dist.sum()` at `som_tools.py:800` is 0/0 and yields 101 NaNs; the model gives None, the value it also uses for the `np.nan` of no picks.
- Distributions.GetPick: `np.random.choice` accepts a p whose sum is within a small floating-point tolerance of 1; the model asks for an exact sum, which every histogram it builds has (`ProbDistPicks`). That the chosen index has a positive probability is not stated: the index is an input.
- PressureSurvey.ExpertShares: the expert weight `w` is taken as already filled. The source fills an empty Weight cell with 1 (protect_baltic/src/som_tools.py:368) before copying it into the survey rows (protect_baltic/src/som_tools.py:389), so `w` is never NaN there; the fill itself is not repeated in this member.
- Links.UniqueMeasures: states the distinct measures but not their order of first appearance. The order only sets the order in which overlap multipliers are applied, and their product does not depend on it.
- Distributions.ExpertSamples: expert weights are reals, never NaN. The surveys give a NaN weight only to experts whose answers are all NaN, and those are skipped.
- Distributions.Sort3: is applied only to complete triples. `np.sort` places NaNs last, but a triple with a NaN is skipped, so the result is the same.
- The model assumes DataFrame index labels equal row positions. The code mixes `loc`/`index` labels with `iloc` positions: `.index[0]` is used as an `iloc` row at `som_app.py:326-327`, and `survey_df.iloc[i-2]` sits beside `loc` at `som_tools.py:209-219`.
- Cases.BuildCases: the mutation of the caller's cases table is not modelled. `build_cases` writes lists into the caller's cells and drops its rows in place; the model returns the result only. Each row is expanded right away rather than after a separate explode pass, which yields the same rows in the same order.
- Changes.BuildChanges: checks for the missing pressure before the loops rather than inside the third one. The tables are lost when the lookup raises, so the outcome is the same.
- Changes.BuildChanges: the tables are indexed by area position. The code's `ID` column is left out.
- Changes.BuildChanges: the GES tables are filled one column at a time rather than all four per cell.
- Changes.PressureCell: does not mirror the dead `contribution = 1` for activity 0 (`som_app.py:284-285`), which the lookup right after it overwrites.
- Utilities.Timer.GetDuration and Utilities.Timer.GetHhmmss: carry no contract of their own. Their formats are stated by `DurationTextDecomposes` and `HhmmssReadsBack`.
