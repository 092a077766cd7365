# Per-country train/test split of the revenue table

The repository ingests revenue time series, one per country, into a
single table. Each row carries a `country` and a `next_months_revenue` label,
and the label is missing where the forward-looking window is unavailable.
`train_test_split` cuts that table into a train table and a test table, country
by country:

- `_train_test_split_idx_country` finds, in one country's rows, the first
  labelled row `start` and the last labelled row `end`. It puts the split row
  at `train_end = start + round(train_size * (end - start))`.
- `train_test_split` groups the table by country. It takes the rows with label
  in `[start, train_end]` as that country's train part and the rows in
  `[train_end, end]` as its test part. It concatenates the parts, country by
  country, into the two outputs.

This project models that split and proves what it delivers. The modules are:

- `Wrappers`: `Option` and `Result`.
- `KeyOrder`: Python's string `<` and the sorted key list `groupby` visits.
- `Rounding`: Python's `round` on an exact fraction, which rounds half to even.
- `DataFrame`: a table is a sequence of rows with index labels `0..N-1`, the
  fresh index `ingest` writes. It also holds `df.loc[a:b]` and the country
  grouping.
- `Search`: the `idxmax` searches over the "label present" mask.
- `Split`: the two source functions.
- `ConcatFacts`: what `pd.concat` of the parts keeps.
- `SplitProperties`: the per-country promises.
- `OutputProperties`: the promises about the two outputs, for a table whose
  countries each occupy one block of rows.

A selection (`seq<Entry>`) keeps each row together with its original label, as
`df.loc` does. `train_size` is the exact fraction `num / den`.

For a country without any labelled row, the mask is all `False`. The forward
`idxmax` then falls back to the country's first row, and the `idxmax` on the
reversed mask falls back to its last row. Such a country gets its first and
last row as `start` and `end`, with no error.

## Model

| member | source | states |
|---|---|---|
| Search.ArgMax | src/part1_data_investigation/data_ingestion.py:44 | argmax (the position) on a boolean mask, which `idxmax` reads the label at: the first `True` position, with no `True` before it; position 0 when every value is `False` |
| Search.ReversedArgMax | src/part1_data_investigation/data_ingestion.py:45 | the search over `mask[::-1]` stops at the last `True`, with no `True` after it; it stops at the last position when there is none; it is never before the forward search's position |
| Search.FirstLabelledInGroup | src/part1_data_investigation/data_ingestion.py:44 | on a country's mask, the forward search finds the country's first labelled row: no earlier row of the country is labelled |
| Search.LastLabelledInGroup | src/part1_data_investigation/data_ingestion.py:45 | on a country's mask, the reversed search finds the country's last labelled row: no later row of the country is labelled |
| Search.FallbackInGroup | src/part1_data_investigation/data_ingestion.py:44-45 | a country with no labelled row silently gets its first row as `start` and its last row as `end` |
| Search.NotNa | src/part1_data_investigation/data_ingestion.py:44-45 | `~df_country["next_months_revenue"].isna()`: a Series over the group's labels that is `True` exactly at the labelled rows |
| Search.Reverse | src/part1_data_investigation/data_ingestion.py:45 | `[::-1]` (`Search.Reversed` applies it to the labels and the values alike): same length, element `k` is element `n - 1 - k` of the original |
| Search.IdxMaxReversed | src/part1_data_investigation/data_ingestion.py:45 | `mask[::-1].idxmax()` (`Search.IdxMax` on `Search.Reversed`) is the label at position `n - 1 - argmax(reversed values)` of the unreversed Series |
| Search.SearchesFind | src/part1_data_investigation/data_ingestion.py:44-45 | `Search.IdxMax`, the label `idxmax` returns, on a group's mask and on its reverse: the first and last labelled rows of the country, or its first and last rows when none is labelled |
| Search.LabelledSpan | src/part1_data_investigation/data_ingestion.py:44-45 | `start <= end`, both are rows of the country, and they are its first and last labelled rows, or its first and last rows when none is labelled |
| Rounding.RoundHalfEven | src/part1_data_investigation/data_ingestion.py:46 | `round(p / q)` is within half of `p / q`, and a tie goes to the even integer |
| Rounding.RoundIsNearest | src/part1_data_investigation/data_ingestion.py:46 | no integer is closer to `p / q` than `round(p / q)` |
| Rounding.RoundHalfEvenUnique | src/part1_data_investigation/data_ingestion.py:46 | any integer that is within half and takes the even side on a tie is `round(p / q)` |
| Rounding.RoundWithin | src/part1_data_investigation/data_ingestion.py:46 | a fraction in `[0, k]` rounds into `[0, k]` |
| Rounding.RoundExact | src/part1_data_investigation/data_ingestion.py:46 | a whole number rounds to itself |
| Split.SplitOffset | src/part1_data_investigation/data_ingestion.py:46 | `round(train_size * span)` lies in `[0, span]` for `train_size` in `[0, 1]`; it is 0 for `train_size = 0` and `span` for `train_size = 1` |
| Split.SplitIdxCountry | src/part1_data_investigation/data_ingestion.py:43-48 | `(start, train_end, end)`: first and last labelled rows of the country (its first and last rows when none is labelled), and `start <= train_end <= end` for `train_size` in `[0, 1]`, with `train_end = start` at 0 and `train_end = end` at 1 |
| Split.TrainBlocks | src/part1_data_investigation/data_ingestion.py:53 | the list comprehension of train parts: one part per `groupby` key, each a selection of the table's own rows in label order |
| Split.TestBlocks | src/part1_data_investigation/data_ingestion.py:54 | the list comprehension of test parts: one part per `groupby` key, each a selection of the table's own rows in label order |
| SplitProperties.PartLabels | src/part1_data_investigation/data_ingestion.py:53-54 | `Split.TrainPart`, `df.loc[start:train_end]`, holds exactly the labels in `[start, train_end]`, and `Split.TestPart`, `df.loc[train_end:end]`, exactly those in `[train_end, end]` |
| Split.TrainTestSplit | src/part1_data_investigation/data_ingestion.py:51-56 | the call fails exactly on an empty table, which has no country |
| DataFrame.Loc | src/part1_data_investigation/data_ingestion.py:53-54 | `df.loc[a:b]` holds the table's own rows, in label order, and exactly the labels in `[a, b]`; the range is inclusive at both ends |
| DataFrame.Group | src/part1_data_investigation/data_ingestion.py:52 | a country's group lists exactly its rows, in increasing label order, and is non-empty exactly when the country occurs |
| DataFrame.GroupKeys | src/part1_data_investigation/data_ingestion.py:52 | `groupby` visits every country of the table once, in increasing string order, and no other key |
| KeyOrder.Insert | src/part1_data_investigation/data_ingestion.py:52 | adding a key to a sorted key list keeps it strictly sorted and adds exactly that key |
| KeyOrder.StrictlySortedDistinct | src/part1_data_investigation/data_ingestion.py:52 | a strictly sorted key list repeats no key, so `groupby` visits each country once |
| KeyOrder.LessTransitive | src/part1_data_investigation/data_ingestion.py:52 | Python's string order on the country keys is transitive |
| KeyOrder.LessTotal | src/part1_data_investigation/data_ingestion.py:52 | of two distinct country keys, one sorts before the other |
| ConcatFacts.ConcatLabels | src/part1_data_investigation/data_ingestion.py:53-54 | `pd.concat` of the parts (`Split.Concat`) holds a label exactly when some part holds it |
| ConcatFacts.ConcatMember | src/part1_data_investigation/data_ingestion.py:53-54 | `pd.concat` of the parts (`Split.Concat`) holds a row exactly when some part holds it |
| ConcatFacts.ConcatEntriesOf | src/part1_data_investigation/data_ingestion.py:53-54 | concatenating selections of a table gives a selection of that table |
| ConcatFacts.ConcatGrouped | src/part1_data_investigation/data_ingestion.py:52-54 | one label-ordered part per key, keys in sorted order, concatenate to rows ordered by country and then by label |
| SplitProperties.BoundaryRowShared | src/part1_data_investigation/data_ingestion.py:53-54 | a country's train and test parts share row `train_end` and no other row |
| SplitProperties.PartsCoverSpan | src/part1_data_investigation/data_ingestion.py:46-54 | together a country's two parts are exactly the rows in `[start, end]` |
| SplitProperties.SpanIsUnique | src/part1_data_investigation/data_ingestion.py:44-45 | whatever the first and last labelled rows of a country are, they are the split's `start` and `end` |
| SplitProperties.PartsStayInCountry | src/part1_data_investigation/data_ingestion.py:53-54 | with each country in one block of rows, a country's parts hold rows of that country only |
| SplitProperties.LabelledSpanRows | src/part1_data_investigation/data_ingestion.py:44-45 | with each country in one block, the rows from the first to the last labelled row are the country's rows with a labelled row at or before them and one at or after them |
| SplitProperties.PartsAreLabelledSpan | src/part1_data_investigation/data_ingestion.py:44-54 | with each country in one block, its two parts together hold exactly its rows that lie between labelled rows; unlabelled leading and trailing rows are in neither |
| SplitProperties.EdgeSizesGiveSingleRow | src/part1_data_investigation/data_ingestion.py:46-54 | `train_size = 0` makes the train part the single row `start`; `train_size = 1` makes the test part the single row `end` |
| SplitProperties.ScenarioSplit | src/part1_data_investigation/data_ingestion.py:43-54 | ten rows of one country labelled on rows 2 to 8, with `train_size = 0.5`, give `(2, 5, 8)`, train rows 2 to 5 and test rows 5 to 8 |
| SplitProperties.DefaultScenarioSplit | src/part1_data_investigation/data_ingestion.py:43-54 | the same ten rows with the default `train_size = 0.8` give `(2, 7, 8)`, since `round(4.8) = 5`: train rows 2 to 7 and test rows 7 to 8 |
| OutputProperties.BlocksLabels | src/part1_data_investigation/data_ingestion.py:52-54 | with each country in one block, the concatenated parts hold a row exactly when its own country's part does |
| OutputProperties.TrainRows | src/part1_data_investigation/data_ingestion.py:51-53 | the train output holds row `i` exactly when `i` lies in `[start, train_end]` of its country |
| OutputProperties.TestRows | src/part1_data_investigation/data_ingestion.py:51-54 | the test output holds row `i` exactly when `i` lies in `[train_end, end]` of its country |
| OutputProperties.OutputsGrouped | src/part1_data_investigation/data_ingestion.py:52-54 | both outputs hold the table's own rows, one block per country in sorted key order, each block in label order, with no row twice |
| OutputProperties.SplitRowsShared | src/part1_data_investigation/data_ingestion.py:53-54 | the outputs share exactly the split row `train_end` of each country |
| OutputProperties.RowsKept | src/part1_data_investigation/data_ingestion.py:44-54 | the outputs together keep every row except the unlabelled rows before a country's first or after its last labelled row; a country with no labelled row is kept whole |

## Left out

- `ingest` and `_merge_engineered_features`: they read JSON, write CSV and call the external `cslib` library, which is not part of this model. The model's input is the table `ingest` returns, with a fresh index `0..N-1`.
- Floating point: `train_size` is the exact fraction `num / den`, so the product `train_size * (end - start)` is exact. A float product that lands just beside a `.5` tie could round differently.
- Split.SplitIdxCountry: the range facts about `train_end` are stated only for `train_size` in `[0, 1]`. The source does not check the range. For other values the model computes the same `train_end`, and the train and test slices can then reach rows of neighbouring countries.
- Missing columns: a table without `country` or `next_months_revenue` raises a lookup error. A row here always has both fields, so that error path does not exist in the model.
- Missing country keys: `groupby` drops rows whose `country` is missing. Every row here has a country.
- Other indexes: the model fixes the index to `0..N-1`. With a non-monotonic index, `df.loc[a:b]` behaves differently.
- Split.TrainTestSplit: an empty table is a single `EmptyTable` failure. Depending on the pandas version, the call raises in the `start, end, _` unpacking at line 53 or in `pd.concat([])`. The model does not distinguish these exceptions.
- OutputProperties: the whole-output lemmas assume that each country's rows form one block, which is how `ingest` builds the table. Without that assumption, a country's label range can cover rows of another country, and the model computes that too; only the lemmas need the assumption.
- The `append` mode and the CSV write of `ingest` are I/O and are not modelled.
