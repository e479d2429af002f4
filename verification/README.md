# ModelComparator in Dafny

A model of the computational core of `ModelComparator` from the churn-modelling pipelines.
The comparator takes one result table per trained model and works in two steps. Each table
holds one row per configuration variant, with Accuracy, Precision, Recall, F1-Score and Cost ($).

1. **generate_model_summary**: reduces every table to its best variant. Variants are ranked
   by highest Recall, then lowest Cost, then highest F1-Score. Every selected row is then
   flagged `is_best_cost` when its cost equals the lowest cost in the summary.
2. **identify_overall_best_model**: min-max normalises Accuracy, Precision, Recall and F1-Score
   across the summary, and normalises Cost inverted, so the cheapest row gets 1. It combines
   the normalised values with the fixed weights 1, 1, 1.5, 1.5 and 2 into a composite score.
   Every row whose score equals the maximum is flagged `is_overall_best`. The rows are then
   ordered by score, highest first.

Files and modules:

- `records.dfy` (`Records`): the result row and its five numeric columns.
- `extrema.dfy` (`Extrema`): column minimum and maximum.
- `results.dfy` (`Results`): the `Result` type that stands for the errors the comparator raises.
- `model_summary.dfy` (`ModelSummary`): best-variant selection and the cost flag.
- `composite_ranking.dfy` (`CompositeRanking`): spans, normalisation, weights, score, flag and ordering.
- `worked_examples.dfy` (`WorkedExamples`): both steps on small inputs, stated for all rows of the given shape.

Modelling decisions:

- Metric values and costs are exact `real`s, not floats. The emoji flag strings
  ("🟩 True"/"🟥 False", "✅ Best"/"") are booleans.
- A result row keeps the model name and the five numeric columns. Other columns a table may
  carry are not represented. A selected row is the table's row itself, unchanged.
- Selecting from an empty table fails in the source (`iloc[0]` on an empty frame). The model
  returns `Err(EmptyTable(i))` for the first empty table, in table order.
- With no tables at all, the source builds a summary frame without a `Cost ($)` column, and
  looking that column up fails. The model returns `Err(NoModels)`.
- When a metric takes a single value across a non-empty summary, its normalisation divides
  zero by zero, and the source produces NaN scores. The model does not invent a fallback
  value. It returns `Err(DegenerateRange(metric))` and reports the first such metric in the
  order the source normalises them: Accuracy, Precision, Recall, F1-Score, Cost. A one-row
  summary is therefore always an error. The source then returns NaN scores and flags no row,
  because NaN never equals the NaN maximum. The model reports the degenerate metric as an
  explicit error instead of inventing a value.
- An empty summary ranks to an empty table. pandas applies every step to an empty frame
  without raising.
- Rows that tie on Recall, Cost and F1-Score: the model selects the earliest such row in the
  table. The source depends on pandas' multi-column sort order for this, so earliest-first
  is a choice of the model.
- The final ordering is an insertion sort by score, highest first. The source uses pandas'
  default sort for one column, which is not stable. So the order among rows with equal scores
  is a choice of the model, and none of the contracts depends on it.
- A ranked row carries its summary row (including `is_best_cost`), its composite score and
  the flag. The type has no place for the `n_` helper columns, which the source drops before
  sorting.

## Model

| member | source | states |
|---|---|---|
| `ModelSummary.BestVariantIndex` | build/lib/churn_modeling_pipelines/ModelComparator.py:32-33 | the selected position is in the table, no row outranks it under (Recall desc, Cost asc, F1 desc), and it outranks every earlier row, so it is the first row a stable sort would put on top |
| `ModelSummary.BestVariant` | build/lib/churn_modeling_pipelines/ModelComparator.py:32-33 | the selected variant is a row of its table and no row of the table has higher Recall, or equal Recall and lower Cost, or equal Recall and Cost and higher F1-Score |
| `ModelSummary.Outranks` | build/lib/churn_modeling_pipelines/ModelComparator.py:32 | Recall decides first: higher Recall always outranks and lower never does; with equal Recall and different Cost the cheaper row outranks; rows with equal keys never outrank each other |
| `ModelSummary.OutranksTrichotomy` | build/lib/churn_modeling_pipelines/ModelComparator.py:20-23 | two rows have equal keys or exactly one outranks the other, and never both |
| `ModelSummary.OutranksTransitive` | build/lib/churn_modeling_pipelines/ModelComparator.py:20-23 | the selection order is transitive; with OutranksTrichotomy it is a strict weak order |
| `ModelSummary.BestVariantFirstAmongEquals` | build/lib/churn_modeling_pipelines/ModelComparator.py:32-33 | no row before the selected one has the same Recall, Cost and F1-Score |
| `ModelSummary.BestVariantDominates` | build/lib/churn_modeling_pipelines/ModelComparator.py:32-33 | every row of the table has the selected row's keys or is outranked by it |
| `ModelSummary.OptimalRowsShareKeys` | build/lib/churn_modeling_pipelines/ModelComparator.py:20-23 | any two optimal rows agree on Recall, Cost and F1-Score, so the selected keys do not depend on tie-breaking |
| `ModelSummary.FirstEmpty` | build/lib/churn_modeling_pipelines/ModelComparator.py:30-33 | the returned index is the first table with no rows, or the number of tables when every table has a row |
| `ModelSummary.SelectBestVariants` | build/lib/churn_modeling_pipelines/ModelComparator.py:28-36 | fails exactly when some table is empty, naming the first one; otherwise one row per table, in table order, each the best variant of its table |
| `ModelSummary.FlagBestCost` | build/lib/churn_modeling_pipelines/ModelComparator.py:38-41 | rows are kept in order and unchanged; a row is flagged exactly when no row of the summary is cheaper; at least one row is flagged |
| `ModelSummary.GenerateModelSummary` | build/lib/churn_modeling_pipelines/ModelComparator.py:18-43 | fails exactly when there are no tables or some table is empty; otherwise one row per table, in order, each a row of its table that no other row of that table outranks, flagged exactly when its cost is the summary minimum, with at least one flag |
| `Extrema.Min` | build/lib/churn_modeling_pipelines/ModelComparator.py:38 | the minimum is an element of the column and no element is smaller |
| `Extrema.Max` | build/lib/churn_modeling_pipelines/ModelComparator.py:81 | the maximum is an element of the column and no element is larger |
| `CompositeRanking.SpanOf` | build/lib/churn_modeling_pipelines/ModelComparator.py:69 | a metric's span runs from a value some row has to a value some row has, and contains every row's value |
| `CompositeRanking.ScaleOf` | build/lib/churn_modeling_pipelines/ModelComparator.py:68-71 | an error names a metric whose values are all equal; a success holds each metric's span, all non-degenerate |
| `CompositeRanking.ScaleOfFailsIffDegenerate` | build/lib/churn_modeling_pipelines/ModelComparator.py:68-71 | ranking a non-empty summary fails exactly when some metric takes a single value across it |
| `CompositeRanking.ScaleOfProper` | build/lib/churn_modeling_pipelines/ModelComparator.py:68-71 | when no metric is degenerate, the scale is exactly the five spans of the summary |
| `CompositeRanking.Normalize` | build/lib/churn_modeling_pipelines/ModelComparator.py:69 | a value inside the span normalises into [0, 1]; the result is 0 exactly at the minimum and 1 exactly at the maximum |
| `CompositeRanking.NormalizeMonotone` | build/lib/churn_modeling_pipelines/ModelComparator.py:69 | normalisation preserves order |
| `CompositeRanking.NormalizedValue` | build/lib/churn_modeling_pipelines/ModelComparator.py:68-71 | in [0, 1] inside the span; a quality metric gets 1 exactly at its maximum and 0 exactly at its minimum; Cost gets 1 exactly at its minimum and 0 exactly at its maximum |
| `CompositeRanking.RowsWithinScale` | build/lib/churn_modeling_pipelines/ModelComparator.py:68-71 | every summary row lies within the summary's own spans |
| `CompositeRanking.NormalizedExtremes` | build/lib/churn_modeling_pipelines/ModelComparator.py:68-71 | across the summary every normalised value is in [0, 1]; a row holding a metric's maximum gets 1 (0 for Cost) and one holding its minimum gets 0 (1 for Cost); both 1 and 0 occur |
| `CompositeRanking.SpanExtremes` | build/lib/churn_modeling_pipelines/ModelComparator.py:68-71 | the same facts for any span attained by the rows |
| `CompositeRanking.Weight` | build/lib/churn_modeling_pipelines/ModelComparator.py:60-66 | every weight is between 1 and 2; Cost alone has the largest weight 2, and exactly Recall and F1-Score have weight 1.5 |
| `CompositeRanking.WeightsSumToTopScore` | build/lib/churn_modeling_pipelines/ModelComparator.py:60-66 | the five weights add up to the top score 7 |
| `CompositeRanking.Score` | build/lib/churn_modeling_pipelines/ModelComparator.py:73-79 | the weighted score of a row within the spans lies in [0, 7] |
| `CompositeRanking.TopScoreIffBestOnEveryMetric` | build/lib/churn_modeling_pipelines/ModelComparator.py:60-79 | a row scores 7 exactly when it has the highest Accuracy, Precision, Recall and F1-Score and the lowest Cost |
| `CompositeRanking.ScoreMonotone` | build/lib/churn_modeling_pipelines/ModelComparator.py:60-79 | under the same spans, a row at least as good on every quality metric and no more expensive scores at least as high |
| `CompositeRanking.RaisedEntryNormalizesHigher` | build/lib/churn_modeling_pipelines/ModelComparator.py:69 | raising one value of a column, the others unchanged, never lowers that value's min-max normalisation, although the minimum and maximum move with it |
| `CompositeRanking.ScoreMonotoneInOwnRow` | build/lib/churn_modeling_pipelines/ModelComparator.py:68-79 | improving one summary row on every metric (no quality metric lower, Cost no higher), the other rows unchanged, never lowers that row's composite score, with the spans recomputed over the changed summary |
| `CompositeRanking.ScoreRows` | build/lib/churn_modeling_pipelines/ModelComparator.py:73-82 | one scored row per summary row, in order; a row is flagged exactly when no row scores higher; at least one row is flagged |
| `CompositeRanking.UniqueTopScoreUniqueFlag` | build/lib/churn_modeling_pipelines/ModelComparator.py:81-82 | with a single highest score, exactly that row is flagged |
| `CompositeRanking.Insert` | build/lib/churn_modeling_pipelines/ModelComparator.py:85 | inserting into a score-descending sequence keeps it score-descending and adds exactly the inserted row |
| `CompositeRanking.SortByScore` | build/lib/churn_modeling_pipelines/ModelComparator.py:85 | the result is ordered by non-increasing score and is a permutation of the input |
| `CompositeRanking.PermutationKeepsFlags` | build/lib/churn_modeling_pipelines/ModelComparator.py:81-85 | reordering the rows keeps every flag equal to "no row scores higher" |
| `CompositeRanking.PermutationKeepsMembers` | build/lib/churn_modeling_pipelines/ModelComparator.py:85 | a permutation has the same length and the same rows |
| `CompositeRanking.ScoredRowsFromSummary` | build/lib/churn_modeling_pipelines/ModelComparator.py:73-79 | every scored row carries a summary row and that row's composite score |
| `CompositeRanking.RankRows` | build/lib/churn_modeling_pipelines/ModelComparator.py:73-86 | the output is a permutation of the scored rows, one per summary row, ordered by non-increasing score, with exactly the maximal rows flagged and at least one flag |
| `CompositeRanking.RankedScoresBounded` | build/lib/churn_modeling_pipelines/ModelComparator.py:60-79 | every score given to a summary row against the summary's own spans is in [0, 7] |
| `CompositeRanking.IdentifyOverallBestModel` | build/lib/churn_modeling_pipelines/ModelComparator.py:58-86 | empty input ranks to empty output; fails exactly when a metric is degenerate; otherwise a permutation of the scored summary rows, ordered by non-increasing score, exactly the maximal rows flagged (at least one), every score in [0, 7] |
| `WorkedExamples.SelectionPrefersRecallThenCost` | build/lib/churn_modeling_pipelines/ModelComparator.py:32-33 | on a concrete three-variant table: with Recall tied, the cheaper variant beats a costlier one with higher F1-Score, and the variant with lower Recall loses despite lower Cost and higher F1-Score |
| `WorkedExamples.TwoModelSummary` | build/lib/churn_modeling_pipelines/ModelComparator.py:30-41 | two one-variant tables give both rows in order, and only the cheaper row has the cost flag |
| `WorkedExamples.TwoModelRanking` | build/lib/churn_modeling_pipelines/ModelComparator.py:58-86 | when one model is better on every quality metric and the other is cheaper, the better one scores 5 and is ranked first and flagged, and the cheaper one scores 2 |

## Left out

- Plotting and notebook display: the `plot` branch of identify_overall_best_model
  (ModelComparator.py:88-111) and all of `plot_composite_scores_with_labels` (:116-146). They
  only draw charts and have no result to state. The `plot` parameter is not modelled.
- IEEE floating point: rounding, NaN propagation, and pandas' skipping of NaN in `min()`/`max()`.
  Inputs are exact reals. The NaN that a degenerate range produces becomes an explicit error.
- pandas mechanics: `.copy()`, `reset_index`, column-name strings and the row index.
  A functional model never mutates its input.
- Columns other than the model name and the five metrics are not carried through.
- The order among rows with equal composite scores, and the choice among variants equal on
  all three selection keys. The source leaves both to pandas' sort and does not promise them.
