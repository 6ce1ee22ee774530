# Road-fatality warehouse and rule mining: a Dafny model

The repository builds a small data warehouse of Australian road-fatality
records and mines association rules from it. It has three stages:

- ETL. Two scripts, `01_ETL_template.py` and `ETL_template.py`, clean the raw
  crash and fatality tables. They then cut the tables into dimension tables
  (time of day, person, date, holiday, road, speed zone, vehicle, crash type,
  location), each numbered with a surrogate key.
- Loading. Two scripts, `02_PostgreSQL.py` and `PostgreSQL.py`, create, drop
  and fill PostgreSQL tables. The table catalogue they use is in
  `utility/schemas.py`.
- Rule mining. Two scripts, `03_Association_Rule_Mining.py` and
  `Association_Rule_Mining.py`, turn joined records into `column=value`
  transactions and hand them to an Apriori miner. They then keep, rank and cut
  the rules that predict the road-user class. A parameter sweep pools twelve
  runs into one table of at most fifty rules.

The model covers the repository's own logic around those libraries. It states
what each step promises as contracts and proves them.

The model is laid out as follows:

- `outcomes.dfy` holds the `Option` and `Result` types.
- `text.dfy` models Python `str` operations: `split`, `join`, `strip`,
  `int()`, `str()` of an integer, and code-point ordering.
- `seqs.dfy` and `sorting.dfy` model the pandas row operations that are used:
  boolean-mask selection, `drop_duplicates`, `head`, `reversed`, and the
  stable multi-key `sort_values`.
- `frames.dfy` defines cells, records and frames. A cell is missing, text, an
  integer or a boolean.
- `column_selection.dfy`, `transactions.dfy`, `rules.dfy`, `item_format.dfy`
  and `sweep.dfy` model rule mining.
- `column_names.dfy`, `cleaning.dfy`, `categories.dfy` and `dimensions.dfy`
  model the ETL.
- `schemas.dfy` and `postgres.dfy` model the table catalogue and the database
  scripts.

Some behaviours of the code are modelled as written, even where they may
surprise a reader:

- Age 17 falls in the group labelled "18-25", because the bins are half-open.
- `dim_location` is numbered before its rows with missing fields are dropped,
  so its ids can have gaps.
- Both mining scripts test `confidence >= min_confidence` on the rules the
  shape filter kept.
- The sweep de-duplicates exported rows on all five exported columns.

## Model

| member | source | states |
|---|---|---|
| ColumnSelection.SelectedColumns | 03_Association_Rule_Mining.py:25-53 | The selection starts with the eight fixed attributes in their order. It then has at most one speed, at most one holiday and at most one vehicle column, in that group order. Its length is eight plus one for each recognised setting, and it has no repeats. |
| ColumnSelection.SelectedColumnsMembership | 03_Association_Rule_Mining.py:34-51 | Each optional column is selected exactly when its setting names it. An unrecognised value adds nothing. |
| ColumnSelection.SweepRunsSelectElevenColumns | 03_Association_Rule_Mining.py:122-135 | The sweep has twelve runs, and every run mines exactly eleven attributes. |
| Transactions.ItemColumnOfItem | 03_Association_Rule_Mining.py:72 | The text before the first `=` of an item `col=value` is the column it came from. |
| Transactions.Tokenize | 03_Association_Rule_Mining.py:71-73 | A transaction holds the item of every present cell and nothing else. It has no more items than selected columns. |
| Transactions.TokenizeOnePerColumn | 03_Association_Rule_Mining.py:72-73 | Over distinct column names, the items of a transaction name distinct columns, in selected-column order. |
| Transactions.PrepareTransactions | Association_Rule_Mining.py:104-120 | Selection fails with `KeyError` exactly when a selected column is absent, naming an absent selected column. Otherwise there is one transaction per row. Each holds the item of every present cell of its row, and every item it holds is such an item. It has no more items than selected columns. |
| Transactions.PrepareTransactionsOrdered | Association_Rule_Mining.py:110-118 | Over distinct selected columns without `=`, each transaction names each column at most once, in the order the columns were selected. |
| Transactions.MergeTablesForArm | Association_Rule_Mining.py:34-50 | The result has exactly the sixteen fields in order, and no more rows than the input. Every kept row is complete, with its five flags as text. An input record is kept exactly when its non-flag fields are all present, so a missing flag alone never drops a row. The kept rows are the projections of those records, in input order. |
| Transactions.ArmRecordComplete | Association_Rule_Mining.py:43-50 | After the flags are stringified, a projected record is complete exactly when its source has every non-flag field. |
| Sorting.SortBy | 03_Association_Rule_Mining.py:94 | The sort returns a permutation of its input that is ordered by the ranking. |
| Sorting.SortByStable | 03_Association_Rule_Mining.py:94 | Elements that rank equal keep their input order. |
| Sorting.SortedPrefixClosed | 03_Association_Rule_Mining.py:94 | A cut of a sorted sequence keeps every element that ranks strictly above one it keeps. |
| Seqs.FilterIdempotent | 03_Association_Rule_Mining.py:89-93 | Selecting twice with the same mask selects nothing more. |
| Seqs.FilterFilter | 03_Association_Rule_Mining.py:89-93 | Two successive selections equal one selection by the conjunction of the masks. |
| Seqs.DropDuplicates | 03_Association_Rule_Mining.py:161 | The result keeps each distinct row exactly once, at its first occurrence, in first-occurrence order. |
| Seqs.Head | 03_Association_Rule_Mining.py:162 | `head(n)` is a prefix of length `min(n, len)`. For a negative `n` it drops the last `-n` rows. |
| Rules.RankSort | 03_Association_Rule_Mining.py:94 | The result is the same multiset of rules, ordered by lift descending and then confidence descending. |
| Rules.RankSortStable | 03_Association_Rule_Mining.py:94 | Rules of equal lift and confidence keep their candidate order. |
| Rules.MineRulesPrefix | 03_Association_Rule_Mining.py:142 | Asking for fewer rules gives a prefix of the longer answer, so the sweep's fifty rules per run start with the default ten. |
| Rules.PostFilter | 03_Association_Rule_Mining.py:89-93 | The shape filter followed by the confidence filter selects exactly the qualifying rules. A rule qualifies when it has one consequent item that starts with the target and its confidence is at least the bar. |
| Rules.PostFilterIdempotent | 03_Association_Rule_Mining.py:89-93 | Applying the shape and confidence filters twice equals applying them once. |
| Rules.MineRules | 03_Association_Rule_Mining.py:84-94 | The following hold for the kept rules:<br>- Every kept rule is a candidate with exactly one consequent starting with the target and with enough confidence.<br>- The result is rank-sorted.<br>- Its length is `min(top_k, number qualifying)`.<br>- No qualifying rule left out ranks strictly above a kept one.<br>- The kept rules are a sub-multiset of the qualifying rules, and all of them when `top_k` is at least their number.<br>- The second script, `Association_Rule_Mining.py` lines 133-145, applies the same post-filter. |
| ItemFormat.SortedItems | 03_Association_Rule_Mining.py:106 | `sorted(fset)` lists every item of the set once, in strictly ascending code-point order. |
| ItemFormat.SortedListingUnique | 03_Association_Rule_Mining.py:106 | A set has only one strictly ascending listing. |
| ItemFormat.FormatItemsCanonical | 03_Association_Rule_Mining.py:106-107 | The written form is `{` plus any ascending listing joined by `, ` plus `}`. It does not depend on iteration order. |
| ItemFormat.FormatItemsSmall | 03_Association_Rule_Mining.py:107 | The empty set is written `{}` and a one-item set `{x}`. |
| Sweep.Concat | 03_Association_Rule_Mining.py:147 | The pooled rules are exactly the rules of the runs. |
| Sweep.ConcatSingle | 03_Association_Rule_Mining.py:147 | Pooling one run gives that run unchanged. |
| Sweep.ConcatAppend | 03_Association_Rule_Mining.py:147 | Pooling two batches of runs is pooling each and appending the results. With `ConcatSingle` this fixes the pool as the runs' rules in run order, with their multiplicities. |
| Sweep.RankedExport | 03_Association_Rule_Mining.py:150-160 | The exported rows are rank-sorted. Every pooled rule appears, and every row comes from a pooled rule. |
| Sweep.MergeSweep | 03_Association_Rule_Mining.py:147-162 | The merged table has these properties:<br>- At most fifty rows, with no repeated rows.<br>- Sorted by lift, then confidence, descending.<br>- Every row comes from some run.<br>- A run's rule is either present, or the table is full and every row ranks at least as high as it. |
| Sorting.DropDuplicatesSorted | 03_Association_Rule_Mining.py:150-161 | De-duplicating a sorted table leaves it sorted. |
| Sweep.TopRows | 03_Association_Rule_Mining.py:162 | The first `n` rows of a sorted, repeat-free table are sorted, repeat-free rows of it. |
| ColumnNames.CollapseNonWord | 01_ETL_template.py:94 | Replacing runs of non-word characters leaves only word characters, and the result is at most one character longer. |
| ColumnNames.CollapseWoven | 01_ETL_template.py:94 | Non-empty words separated by non-empty runs of non-word characters come out as the words joined by single `_`: each run becomes exactly one `_`. |
| ColumnNames.StripUnderscores | 01_ETL_template.py:96 | The result is a slice of the input, and every character before and after that slice is `_`. The result neither starts nor ends with `_`, so exactly the leading and trailing `_` are removed. |
| ColumnNames.NormalizeColumnName | 01_ETL_template.py:92-98 | A normalised name holds only `a-z`, `0-9` and `_`, and neither starts nor ends with `_`. |
| ColumnNames.NormalizeWords | 01_ETL_template.py:92-98 | A name made of letter-and-digit words separated by runs of other characters, optionally with such a run at either end, normalises to its lower-cased words joined by single `_`. |
| ColumnNames.NormalizeIdempotent | ETL_template.py:72-78 | Normalising a normalised name changes nothing. |
| ColumnNames.NormalizeKeepsAlnum | 01_ETL_template.py:92-98 | The letters and digits of a name survive normalisation in order, lower-cased, and no other letter or digit appears. |
| Cleaning.YesNo | 01_ETL_template.py:124 | "Yes" maps to True and "No" to False. Any other value has no image. |
| Cleaning.ToNumeric | 01_ETL_template.py:133 | Integers stay. A boolean becomes 1 or 0. Missing stays missing. Text becomes the integer the plain reader (optional `-`, then ASCII digits) reads from it, and missing when that reader rejects it. |
| Cleaning.ToNumericReadsDecimal | 01_ETL_template.py:133 | The decimal text of any integer is read back as that integer. |
| Cleaning.CleanCell | 01_ETL_template.py:102-133 | The value rules for a cell:<br>- No sentinel value is left outside the flag and speed columns.<br>- `road_user` "Other/-9" becomes missing.<br>- Flags become booleans or missing.<br>- `road_user` values other than "Other/-9" follow the sentinel rule: a sentinel becomes missing, anything else stays.<br>- A flag becomes True exactly for "Yes" and False exactly for "No".<br>- `speed_limit` becomes an integer or missing, and "<40" becomes 40. Readable integer text that is not a sentinel becomes that integer. An integer other than -9 stays, a boolean becomes 1 or 0, and a sentinel, a missing value or unreadable text other than "<40" becomes missing. |
| Cleaning.CleanSpeedReadsDecimal | 01_ETL_template.py:111-133 | A speed limit written as the decimal text of an integer comes out as that integer, except -9, which is a sentinel and becomes missing. |
| Cleaning.FillCell | 01_ETL_template.py:151-154 | The fill columns end with no missing value. Present values are unchanged. |
| Cleaning.CleanFrame | 01_ETL_template.py:99-158 | A column is kept exactly when it has a value somewhere, and the kept columns are in input order. The rows are the input rows whose cleaned form keeps its critical fields, in input order and with their multiplicity, each cleaned and then filled; this equation is proved from the script's order of steps (clean, drop incomplete rows, fill) through `CleanRowsInOrder`. The row count never grows. Every kept row satisfies all the value rules: no sentinels, integer speed limits, present critical fields, filled location and identity fields. The second script, `ETL_template.py` lines 70-145, applies the same rules. |
| Cleaning.CleanRowsInOrder | 01_ETL_template.py:127-156 | Cleaning every row, dropping the incomplete ones and filling the rest gives the same rows, in the same order, as selecting the input rows whose cleaned form is complete and then cleaning and filling them. |
| Cleaning.CleanFrameKeepsCompleteRows | 01_ETL_template.py:127-148 | A row whose speed limit, age and time of day survive the value rules is kept, cleaned and filled. |
| Cleaning.CleanFrameRowsFromInput | 01_ETL_template.py:127-156 | Every output row is the cleaned and filled image of an input row that kept its critical fields. |
| Categories.IntOfText | 01_ETL_template.py:252 | `int()` on text succeeds exactly when the stripped text is ASCII digits with an optional `-` or `+` in front. Where the plain integer reader succeeds it gives the same value. |
| Categories.IntOfTextPadded | 01_ETL_template.py:252 | The decimal text of any integer, padded with whitespace on either side, is read as that integer. |
| Categories.IntOfTextPlus | 01_ETL_template.py:252 | A `+` in front of the decimal text of a non-negative integer, with any whitespace padding, is read as that integer. |
| Categories.SpeedCategory | 01_ETL_template.py:253-262 | The category is the label indexed by how many of 30/50/70/100 the speed exceeds. |
| Categories.SpeedCategoryMonotone | 01_ETL_template.py:253-262 | A faster speed never gets a lower category. |
| Categories.ClassifySpeedCategory | 01_ETL_template.py:247-264 | The result is NA exactly when `int()` fails. Otherwise it is the category of the integer, one of the five labels. `ETL_template.py` lines 249-263 use the same thresholds and labels. |
| Categories.SpeedLimitGroup | ETL_template.py:223-230 | The group is the label indexed by how many of 50/80/100 the speed exceeds. |
| Categories.SpeedLimitGroupMonotone | ETL_template.py:223-230 | Every speed gets one of the four labels, and a faster speed never gets a lower one. |
| Categories.CategorizeSpeedLimit | ETL_template.py:220-232 | The result is NA exactly when `int()` fails. Otherwise it is the group of the integer. |
| Categories.AgeGroup | 01_ETL_template.py:187-192 | An age has a group exactly when it is in [0, 200). Each half-open bin gets its label. |
| Categories.Quarter | 01_ETL_template.py:222 | The quarter `q` satisfies `3(q-1) < month <= 3q`, and months 1..12 map into 1..4. |
| Dimensions.SurrogateKeys | 01_ETL_template.py:162-176 | The ids are 1..n. The numbered values are exactly the result of `drop_duplicates()`: the distinct input rows, each once, in first-occurrence order. The time-of-day, holiday (lines 237-245), vehicle (281-303) and crash-type (306-316) dimensions are exactly this operation on their columns (`DimTimeOfDay`, `DimHoliday`, `DimVehicle`, `DimCrashType`). |
| Dimensions.SurrogateKeyOf | 01_ETL_template.py:169-171 | Every input row has exactly one id. |
| Dimensions.DimPerson | 01_ETL_template.py:179-207 | The (age, gender, road user) triples of the table are the distinct input triples in first-occurrence order, each once, with ids 1..n. Each row has the age group of its age. |
| Dimensions.DateLeTotalPreorder | 01_ETL_template.py:225 | Year, then month, then day name is a total preorder. |
| Dimensions.DimDate | 01_ETL_template.py:210-234 | The date table has these properties:<br>- Each distinct date row appears once, and no other rows.<br>- Rows are sorted by year, month and day name, with ids 1..n.<br>- The rows are a rearrangement of the distinct date rows; `DimDateStable` adds that rows tied on the sort key keep their first-occurrence order.<br>- Each row has the quarter of its month.<br>- `ETL_template.py` lines 196-218 do the same with the holiday flags carried in each date row. |
| Dimensions.DimDateStable | ETL_template.py:196-206 | For every sort key, the date rows tied on year, month and day name appear in the table in the order in which they first occur in the input. Ties arise when rows differ only in day type or holiday flags. A sort on several columns in pandas is stable. |
| Dimensions.DimRoad | 01_ETL_template.py:266-278 | The roads of the table are the distinct (road type, speed limit) pairs in first-occurrence order, each once, with ids 1..n. Each has the category of its speed limit. |
| Dimensions.DimSpeedZone | ETL_template.py:265-272 | The zone table has these properties:<br>- The speed limits are the distinct present ones in first-occurrence order; none is missing, and each appears exactly once.<br>- Each zone has the category of its speed limit.<br>- Ids are 1..n. |
| Dimensions.ZoneMatches | ETL_template.py:241 | The matches of a road are exactly the ids of the zones whose speed limit equals the road's. |
| Dimensions.LeftMergeKeepsRows | ETL_template.py:241 | When the zones' speed limits are distinct, the left merge adds no rows and keeps the roads in order. Each road gets a zone exactly when its speed limit has one, and that zone is the one with the road's speed limit. |
| Dimensions.DimRoadZoned | ETL_template.py:235-246 | Ids are 1..n after the merge. With distinct zone speeds there is one row per distinct road, in order. A row has a zone exactly when its speed limit has one, and then it carries the id of the zone with that speed limit. |
| Dimensions.DimLocation | 01_ETL_template.py:325-361 | Each kept row's id is its position among the distinct locations, counted before incomplete rows are dropped. So ids are increasing and may have gaps. Every kept row is complete and comes from the input. Every complete distinct location is kept with its id. |
| Dimensions.DimLocationGap | 01_ETL_template.py:358-361 | The ids are numbered before incomplete rows are dropped: for a location without an LGA followed by a complete one, the table is the single row with id 2. |
| Schemas.NameInjective | utility/schemas.py:4-15 | Distinct tables have distinct names. |
| Schemas.OrdersListEveryTable | utility/schemas.py:4-15 | The import order and the dict's key order each list all ten tables exactly once. So the imported tables are exactly the tables with a schema. |
| Schemas.SchemaOrdersRespectReferences | utility/schemas.py:4-124 | In the import order and in the dict's key order, every foreign-key target comes strictly before the table that references it. |
| Schemas.ReverseReferrersPrecede | 02_PostgreSQL.py:23-26 | Reversing an order whose references come first puts every referring table before the tables it references. |
| Schemas.DropOrdersRespectReferences | PostgreSQL.py:15-19 | Dropping in the reverse of either order drops every referring table before what it references. |
| Schemas.OnePrimaryKey | utility/schemas.py:18-125 | Every table declares exactly one primary-key column, its first. |
| Schemas.ForeignKeysTargetPrimaryKeys | utility/schemas.py:86-124 | Every foreign-key column is a column of its table. It has the name of the referenced table's only primary key. |
| Schemas.ReferencedIs | utility/schemas.py:86-124 | The tables a table's foreign keys reference are exactly these: six dimensions for the crash fact, eight for the person fact, and none for a dimension table. |
| Schemas.OnlyFactsReference | utility/schemas.py:86-124 | Only the two fact tables have foreign keys, and those point at dimension tables. |
| Schemas.FactsComeLast | utility/schemas.py:13-14 | Both orders end with the two fact tables. |
| Postgres.CreateAll | 02_PostgreSQL.py:19-21 | There is one `create_table` call per listed table, in list order, each with its schema. |
| Postgres.DropAll | 02_PostgreSQL.py:24-26 | There is one `drop_table` call per listed table, in reverse list order. |
| Postgres.DropReversesCreate | PostgreSQL.py:11-19 | Dropping visits exactly the tables creation visits, in the reverse order. |
| Postgres.TableCallsRespectReferences | 02_PostgreSQL.py:19-26 | Both scripts create all ten tables under distinct names, each after the tables it references. They drop each before the tables it references. |
| Postgres.InsertPlaceholdersMatchColumns | 02_PostgreSQL.py:42-44 | The `INSERT` column list splits back into the header. The placeholder list splits into one `%s` per column. |
| Postgres.PrepareCell | 02_PostgreSQL.py:34-37 | A missing value becomes `None`, and every other value is unchanged. |
| Postgres.InsertData | 02_PostgreSQL.py:45 | There is one tuple per row, in row order, with one value per column in column order. `None` appears exactly where the cell is missing. |
| Postgres.InsertTuplesFitPlaceholders | PostgreSQL.py:27-33 | Every parameter tuple has as many values as the statement has placeholders. |
| Postgres.SplitStatements | 02_PostgreSQL.py:126 | Every statement is non-empty, holds no `;` and has no surrounding whitespace. A text is a statement exactly when it is the non-empty stripped form of some `;`-separated segment. There are no more statements than segments. |
| Postgres.SplitStatementsSingle | 02_PostgreSQL.py:126 | A script without `;` gives its stripped text as the only statement, or no statement when it is blank. |
| Postgres.SplitStatementsCons | 02_PostgreSQL.py:126 | The statement before the first `;` comes first, followed by the statements of the rest. With `SplitStatementsSingle` this fixes the statements as the non-blank stripped segments in script order. |
| Postgres.SplitStatementsJoin | PostgreSQL.py:94 | Joining clean statements with `;` and splitting the script gives the same statements back, in order. |
| Postgres.QueryKeyInjective | 02_PostgreSQL.py:133 | Different statement numbers give different `query_i` keys. |
| Postgres.RunStatements | 02_PostgreSQL.py:127-136 | Every statement runs, in order, even after a failure. Result `i` is stored under `query_i`. It is the step's outcome on the database state left by the earlier statements, and `None` on failure. |
| Postgres.RunSqlFile | PostgreSQL.py:88-106 | There is one result per split statement, under pairwise distinct keys `query_1..query_n`. Result `k` is the outcome of statement `k` on the state the earlier statements left, and the final state is the state after all of them. |
| Text.SplitJoin | 02_PostgreSQL.py:126 | Splitting the join of separator-free parts gives the parts back. |
| Text.ParseIntToString | 01_ETL_template.py:133 | Reading back the decimal text of an integer gives that integer. |

## Left out

- The Apriori miner, rule generation and the one-hot encoder are library code and are not modelled. The rule list is an input, and the `min_support` and `min_lift` cuts happen inside that input.
- Rules.MineRules: the `rules` table is modelled as a sequence of rule records. Its pandas index and extra metric columns are not modelled.
- Sweep.MergeSweep: does not model rounding support, confidence and lift to three decimals before de-duplication, because the model has no floating point. Rows equal only after rounding are therefore not merged.
- Sweep.MergeSweep: the `combo` column is left out, because the export projects it away before de-duplication.
- ItemFormat.FormatItems: the `eval` branch for item sets already stored as text is not modelled.
- Cleaning.CleanFrame: starts from a header that is already normalised. Two raw names that normalise to the same name, which pandas would keep as duplicate columns, are not modelled.
- Cleaning.YesNo: the `pd.NA: "Unknown"` key of the flag mapping is not modelled. A missing flag stays missing, since pandas dict lookup of NA keys depends on the library version.
- Cleaning.ToNumeric: reads only optional `-` plus ASCII digits. Floats, exponents and surrounding spaces are treated as unreadable.
- Transactions.PrepareTransactions: a missing selection in pandas raises a `KeyError` listing every absent label. The model's error names only the first absent selected column.
- ColumnNames.CollapseNonWord: its own contract gives only the character set and the length bound. The one-`_`-per-run property is stated by `CollapseWoven` for text cut into words and separators.
- ColumnNames.NormalizeWords: covers words of letters and digits only. A word that itself contains `_` is covered by `NormalizeKeepsAlnum` and the character-set contract, not by an exact equation.
- Categories.IntOfText: `int()` here accepts surrounding whitespace, a sign and ASCII digits. Underscore separators, non-ASCII digits and float inputs are left out.
- ColumnNames.NormalizeColumnName: word characters and lower-casing are ASCII only. Unicode `\w` and `str.lower()` are not modelled.
- Dimensions.DimLocation: the population and dwelling left joins before numbering are not modelled, because row multiplicity there depends on the joined tables. Ids are numbered over the distinct locations.
- Dimensions: every dimension function takes the projected columns as typed rows, not a whole frame.
- The fact-table joins in the ETL scripts and the joins that build the mining input are left out. They are join plumbing whose result depends on the joined data.
- File I/O is not modelled: the Excel and CSV loaders, `to_csv`, `os.listdir`, `import_all_csv_to_db` and `preview_all_tables`.
- `query_to_dataframe` is not modelled.
- Printing and progress bars are not modelled.
- `utility/pg_utils.py` is not part of this model. Its connections, commits and rollbacks are not modelled. `create_table` and `drop_table` are recorded as calls, and `query_data` is a step function over an abstract database state.
- Schemas.SchemaOf: the DDL strings of `TABLE_SCHEMAS` are transcribed into column, type, primary-key and foreign-key records. The SQL text itself is not parsed.
- Postgres.InsertPlaceholdersMatchColumns: the statement text is not parsed as SQL. The lemma covers non-empty headers whose names hold no comma.
- Frames.Render: floats are not rendered, because cells hold integers, text and booleans only.
