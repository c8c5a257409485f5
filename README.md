# CSV-to-PostgreSQL loading scripts, modelled in Dafny

Two Python scripts load CSV extracts into PostgreSQL.

- `db_normalization.py` loads the dimension tables `job`, `postal_object` and
  `product`. It reads their surrogate ids back into a *composite-key map*,
  whose key (the *token*) joins the key columns of a row with `_` and writes
  `_` for a falsy value. It then replaces the natural-key columns of
  `customer` and `transaction` with the looked-up ids and inserts those
  rows.
- `homework_2/basic_sql_operators.py` loads four CSV files, turning empty
  strings and NaN into SQL NULL. `customer`, `orders` and `order_items` go
  straight into their tables. Rows for `product` go to the staging table
  `product_temp`. An `INSERT … SELECT` with
  `row_number() OVER (PARTITION BY product_id ORDER BY list_price DESC)`
  then keeps one row per product id.

The model works on values:

- A cell is a `Value`: NULL, NaN, a string, an integer or a boolean.
- A row is a map from column names to values.
- A DataFrame is a `Frame`, which is the column order plus the rows.
- An `INSERT` statement becomes an `Insert` value: the table, the optional
  column list, and the row tuples in column order.
- The rows a `SELECT` returns are parameters.

Modules:

- `Cells`: Python truthiness, `pd.isna`, `str()`, and the insert-time
  NULL rule.
- `Frames`: frame operations and `insert_data`.
- `CompositeKey`: the token, and splitting a token back into its parts.
- `KeyResolver`: `get_ids_by_composite_key`.
- `KeyRemapper`: the customer and transaction remaps.
- `StagingLoad`: the load loop of the second script.
- `Dedup`: the window-function de-duplication.

Three points where the code behaves differently from what a reader might
expect, and the model follows the code:

- `get_ids_by_composite_key`'s docstring (db_normalization.py:127-128) says
  the map's keys are composite keys. But the map is seeded with the
  key-column names mapped to `None`, so it is not a pure token→id map. See
  Findings.
- A value becomes `_` when it is falsy. That covers `0`, `False` and `''`
  as well as NULL.
- The transaction remap overwrites `product_id` in place rather than
  adding a new column.

## Model

| member | source | states |
|---|---|---|
| Cells.Truthy | db_normalization.py:139 | the `if row[val]` test; every falsy value prints as one of `None`, `''`, `0`, `False` |
| Cells.IsNa | db_normalization.py:105 | `pd.isna`; of its two NA markers only NaN is truthy, so the token writes NaN as `nan` while the insert turns it into NULL |
| Cells.Render | db_normalization.py:139 | `str(v)`; the text is empty exactly for the empty string |
| Cells.NullIfMissing | db_normalization.py:104-106 | a cell becomes NULL exactly when it is NA (NULL or NaN) or the empty string; every other cell is kept unchanged |
| Cells.IntRenderHasNoUnderscore | db_normalization.py:138-139 | `str()` of an integer never contains the `_` separator |
| Cells.IntRenderInjective | db_normalization.py:138-139 | two integers with the same `str()` are equal |
| Frames.Assigned | db_normalization.py:185 | the column list after `df[name] = …`: the old columns plus `name`, and still distinct |
| Frames.Without | db_normalization.py:208-213 | the column list after `drop(columns=…)`: exactly the old columns not named, still distinct and no longer |
| Frames.WithColumn | db_normalization.py:185-206 | assigning a column keeps the frame well formed, appends the name only when it is new, and sets exactly that cell in every row |
| Frames.Drop | db_normalization.py:208-213 | dropping columns removes exactly those names from the column list and from every row, and keeps the frame well formed |
| Frames.Table | db_normalization.py:113 | `values.tolist()` has one tuple per row, and tuple position j holds the cell of column j |
| Frames.NormalizeColumn | db_normalization.py:104-106 | one pass of the loop: the named column's cells become NULL-normalised, and every other cell and every row's key set stay unchanged |
| Frames.NormalizeFrame | db_normalization.py:103-106 | every cell is replaced by its NULL-normalised value; the columns and the row count are unchanged |
| Frames.InsertData | db_normalization.py:93-113 | the column-by-column loop yields an INSERT into the given table, using the frame's column list, with one tuple per row whose cell j is the NULL-normalised value of column j |
| Frames.NormalizeIdempotent | db_normalization.py:103-106 | normalising an already normalised frame changes nothing |
| Frames.NormalizeLeavesNoMissing | db_normalization.py:103-106 | after normalisation no cell is NaN or the empty string |
| CompositeKey.Part | db_normalization.py:139 | `str(v) if v else '_'`: never empty, and `_` only for a falsy value or the string `_` |
| CompositeKey.Join | db_normalization.py:138 | `'_'.join`: the result is empty exactly for no parts or a single empty part |
| CompositeKey.Parts | db_normalization.py:138-139 | one token part per key value: `str(v)` for a truthy value, `_` otherwise |
| CompositeKey.Project | db_normalization.py:139 | the key values of a row, in key-column order |
| CompositeKey.Token | db_normalization.py:138-139 | the composite key of a list of values; it is empty only for an empty key |
| CompositeKey.RowToken | db_normalization.py:138-139 | the composite key of one row over the key columns; it is empty only when there are no key columns |
| CompositeKey.SplitJoin | db_normalization.py:138-139 | splitting a `'_'.join` of parts that contain no `_` gives back exactly those parts |
| CompositeKey.TokenHasOnePartPerColumn | db_normalization.py:138-139 | for truthy values whose `str()` contains no `_`, the token has one `_`-separated field per key column |
| CompositeKey.TokenDeterminesParts | db_normalization.py:138-139 | for truthy values whose `str()` contains no `_`, equal tokens mean equal parts for every column |
| CompositeKey.AgreeingValuesSameToken | db_normalization.py:138-139 | key rows that agree on every truthy value, and are both falsy wherever one of them is, have the same token |
| CompositeKey.TokenCollisions | db_normalization.py:138-139 | distinct key rows can share a token: NULL, `''`, `0` and the string `_` all give `_`, and `a_b,c` collides with `a,b_c` |
| KeyResolver.Seed | db_normalization.py:130 | `dict.fromkeys(columns)`: exactly the column names, each mapped to None |
| KeyResolver.Fold | db_normalization.py:137-141 | the write loop from a given start: it keeps every start key and holds every fetched row's token |
| KeyResolver.KeyMapOf | db_normalization.py:130-141 | the map returned: it holds every key-column name and every fetched token |
| KeyResolver.CorrectedKeyMapOf | db_normalization.py:130-141 | the map built from an empty dictionary binds every key to an id, never to None |
| KeyResolver.LastIndex | db_normalization.py:137-141 | the last fetched row whose token equals t, or -1 when no fetched row has that token |
| KeyResolver.FoldAt | db_normalization.py:130-141 | after the loop, a token maps to the id of the last row that has that token; otherwise it keeps its seeded entry |
| KeyResolver.GetIdsByCompositeKey | db_normalization.py:116-142 | the seed-then-write loop returns exactly the fold of the fetched rows over the column-name seed |
| KeyResolver.KeyMapKeys | db_normalization.py:130-141 | a key is in the map exactly when it is a key-column name or the token of some fetched row |
| KeyResolver.LastWriteWins | db_normalization.py:137-141 | each row's token maps to the id of the last fetched row with that token, and that row is this one or a later one |
| KeyResolver.OwnIdWhenTokensUnique | db_normalization.py:137-141 | when the fetched tokens are pairwise distinct, each row's token maps to that row's own id |
| KeyResolver.SeededNameStaysNull | db_normalization.py:130 | a key-column name that no fetched row's token equals stays mapped to None |
| KeyResolver.CorrectedKeysAreTokens | db_normalization.py:137-141 | with an empty start, the keys are exactly the fetched tokens, and each maps to the id of its last row |
| KeyResolver.KeyMapIsSeedPlusCorrected | db_normalization.py:130-141 | the returned map is the column-name seed overridden by the token map |
| KeyRemapper.Field | db_normalization.py:189-191 | one f-string field `x[c] if x[c] else "_"`: it equals the resolver's token part for the same value |
| KeyRemapper.InlineToken | db_normalization.py:188-249 | the key each lambda builds (lines 188-192, 200-203, 243-249); it has at least one character per selected column plus the separators, and JobTokenAgrees, PostalTokenAgrees and ProductTokenAgrees prove it equal to the resolver's token |
| KeyRemapper.AsCell | db_normalization.py:188-203 | the cell a lookup stores: an id becomes that integer, and a seeded None becomes NULL |
| KeyRemapper.JobTokenAgrees | db_normalization.py:188-192 | the f-string key built for a customer's job equals the resolver's `'_'.join` token over the job key columns |
| KeyRemapper.PostalTokenAgrees | db_normalization.py:200-203 | the same agreement for the postcode/state key |
| KeyRemapper.PostalTokenDeterminesKey | db_normalization.py:65-70 | for postal keys of the declared schema (an integer postcode and a state, both non-empty, here also non-zero and without `_`), equal tokens mean equal postcode and state, so postal keys that differ in postcode or state never share a token |
| KeyRemapper.ProductTokenAgrees | db_normalization.py:243-249 | the same agreement for the five-column product key, where the transaction's `product_id` stands for `product_number` |
| KeyRemapper.ResolveColumn | db_normalization.py:185-195 | the row-wise lookup succeeds exactly when every row's token is a key; the results are the looked-up entries in row order; on failure the error names the first missing token |
| KeyRemapper.AssignLookup | db_normalization.py:185-206 | a failed lookup leaves no frame; a successful one assigns the looked-up ids as the target column |
| KeyRemapper.CustomerRow | db_normalization.py:185-213 | one remapped customer row: its keys are the input's plus `job_id` and `postal_object_id`, minus the five natural-key columns |
| KeyRemapper.RemapCustomer | db_normalization.py:185-213 | succeeds exactly when both lookups succeed; the result is well formed, has the same row count, and its columns are the input's plus `job_id` and `postal_object_id`, minus the five natural-key columns |
| KeyRemapper.CustomerRemapContents | db_normalization.py:185-213 | each output row holds the job and postal ids of its tokens, lacks the five dropped columns, and keeps every other input cell |
| KeyRemapper.TransactionRow | db_normalization.py:235-256 | one remapped transaction row: its keys are the input's minus the four descriptive columns, and `product_id` stays |
| KeyRemapper.RemapTransactions | db_normalization.py:235-256 | succeeds exactly when the product lookup succeeds; `product_id` is kept and the four descriptive columns are dropped |
| KeyRemapper.TransactionRemapContents | db_normalization.py:235-256 | each output row's `product_id` is the looked-up id, the four dropped columns are absent, and every other cell is unchanged |
| KeyRemapper.ResolveRoundTrip | db_normalization.py:137-141 | resolver then remapper: when every dependent row agrees with some fetched row, no lookup fails, and each row gets the id of the last fetched row with its token |
| KeyRemapper.ResolveToMatchingRow | db_normalization.py:137-141 | when the fetched tokens are distinct, a dependent row resolves to the id of the fetched row it agrees with |
| KeyRemapper.AsWrittenKeyError | db_normalization.py:188-192 | a lookup fails (KeyError) exactly when some row's token is neither a fetched token nor one of the seeded column names |
| KeyRemapper.CorrectedKeyError | db_normalization.py:188-192 | with the corrected map, a lookup fails exactly when some row's token is not a fetched token, and every resolved cell is a fetched id |
| KeyRemapper.LoadCustomers | db_normalization.py:185-214 | an INSERT into `customer` is produced exactly when both lookups resolve; it carries the remapped frame's columns, and each tuple has exactly one NULL-normalised cell per column |
| KeyRemapper.LoadTransactions | db_normalization.py:235-257 | an INSERT into `transaction` is produced exactly when the product lookup resolves; it carries the remapped frame's columns, and each tuple has exactly one NULL-normalised cell per column |
| KeyRemapper.SeededNameMasksMissingKey | db_normalization.py:130 | for a customer whose job key spells `job_industry_category`, the as-written map yields job_id NULL instead of a KeyError, while the corrected map fails |
| StagingLoad.ReplaceEmpty | homework_2/basic_sql_operators.py:137 | each empty-string cell becomes NULL, and every other cell is kept |
| StagingLoad.WhereNotNa | homework_2/basic_sql_operators.py:138 | each NA cell becomes NULL, and every other cell is kept |
| StagingLoad.CleanIsNormalize | homework_2/basic_sql_operators.py:137-138 | the two cleaning steps together equal the insert-time NULL rule of the first script |
| StagingLoad.CleanLeavesNoMissing | homework_2/basic_sql_operators.py:137-138 | after cleaning, no cell is NaN or the empty string |
| StagingLoad.LoadTables | homework_2/basic_sql_operators.py:128-139 | one positional INSERT per file, in order; `product` goes to `product_temp` and every other table keeps its name; each tuple has exactly one cleaned cell per column, in column order |
| Dedup.RankOne | homework_2/basic_sql_operators.py:146-155 | the specification of the query's result: only staging rows, one per staging product id, each at its partition's top list price. Its consequences are proved in RankOneSize, RankOneCovers, RankOnePriceDetermined and RankOneKeepsConstraints |
| Dedup.DistinctIds | homework_2/basic_sql_operators.py:150 | the partitions: each staging product id once, and nothing else |
| Dedup.BestFor | homework_2/basic_sql_operators.py:150 | a staging row of the partition whose list price is not below any other row's in it |
| Dedup.Dedup | homework_2/basic_sql_operators.py:146-155 | the output satisfies the rank-one property: exactly one row per staging product id, each a staging row with its partition's highest list price |
| Dedup.RankOneSize | homework_2/basic_sql_operators.py:146-155 | a rank-one output has as many rows as there are distinct ids, which is at most the staging row count |
| Dedup.RankOneCovers | homework_2/basic_sql_operators.py:150-154 | every staging product id appears in the output, at a price at least that of every staging row with that id |
| Dedup.RankOnePriceDetermined | homework_2/basic_sql_operators.py:150 | any two rank-one outputs agree on each id's list price |
| Dedup.TieBreakOpen | homework_2/basic_sql_operators.py:150-152 | with a price tie, two different outputs both satisfy the rank-one property, so the query leaves the surviving row open |
| Dedup.ExampleKeepsHighestPrice | homework_2/basic_sql_operators.py:146-155 | on a three-row example, every rank-one output keeps (1, 25) and (2, 5) and nothing else |
| Dedup.RankOneKeepsConstraints | homework_2/basic_sql_operators.py:38-64 | rows that meet the `product_temp` CHECK constraints still meet them in `product`, and the output's product ids are unique (the primary key) |

## Left out

- Database I/O is parameters and results. This covers the psycopg2 connection and credentials, the `CREATE`/`ALTER`/`DROP` statements, `commit`, `execute_values` paging, and the `print` messages. A `SELECT` result is a parameter; an `INSERT` is an `Insert` value.
- `read_csv` is not modelled: file paths, the per-file delimiters at homework_2/basic_sql_operators.py:126, `keep_default_na` and type inference. Frames and table names are given.
- `pd.to_datetime` on `transaction_date` (db_normalization.py:231-233) is not modelled. The column passes through as an opaque cell.
- Floating point is not modelled. `list_price` is an integer in `Dedup`, and `standard_cost` is an opaque cell.
- pandas dtype re-inference after `apply` is not modelled. That is, None turning back into NaN in numeric columns, and ids becoming floats when a lookup yields None.
- Frames.InsertData: `insert_data` assigns the normalised columns into the caller's DataFrame. The model normalises a copy, so that visible mutation of the argument is not captured.
- The iteration order of the set literal at db_normalization.py:159-166 is not modelled, and neither is the script's top-level sequencing. Each step is a separate operation.
- StagingLoad.ReplaceEmpty: `data.replace('', None)` is read as "replace with None". The forward-fill that some older pandas releases perform for a `None` value is not modelled.
- The empty-frame behaviour of `DataFrame.apply(axis=1)` is not modelled. An empty frame yields an empty column.
- The SQL text of the INSERT (whitespace and the `%s` placeholder) is not modelled, only its table, column list and tuples.
- Dedup.Dedup: it returns one admissible output. The properties are stated over every output that satisfies the rank-one predicate. Neither the tie-break nor the output row order is modelled: the trailing `ORDER BY` at homework_2/basic_sql_operators.py:152 does not fix the order in which `INSERT … SELECT` stores rows.
- KeyRemapper.RemapCustomer: on a missing selected column, the error says only that some selected column is absent. It does not give pandas' exact message.
- The request-column subset step of `DataFrame.__getitem__` is folded into the lookup. A missing key column is the `MissingColumns` error.

## Findings

| source | as written | input that shows it | evidently intended | confidence | as-written member | corrected member |
|---|---|---|---|---|---|---|
| db_normalization.py:130 | `result = dict.fromkeys(columns)` seeds the composite-key map with each key-column name mapped to `None` before the fetched tokens are added | a `job` table without the row needed, and a customer with job_title `job`, job_industry_category `industry`, wealth_segment `category` (so its token is `job_industry_category`): the lookup finds the seeded entry, and job_id becomes NULL instead of raising KeyError. Because `customer.job_id` is `INTEGER NOT NULL` (db_normalization.py:31), the INSERT at line 214 then fails with a database error. So the effect is a later, less specific failure instead of a KeyError naming the missing token, not a silently stored NULL | start from an empty dictionary, so that the map holds only fetched tokens and an unknown key raises KeyError | not executed; medium: the names collide only for data that spells a column name | KeyRemapper.SeededNameMasksMissingKey | KeyResolver.CorrectedKeyMapOf |

The corrected map's properties are proved by `KeyResolver.CorrectedKeysAreTokens` (the keys are exactly the fetched tokens) and `KeyRemapper.CorrectedKeyError` (a lookup fails exactly on a token no fetched row has). `KeyResolver.KeyMapIsSeedPlusCorrected` relates the two maps. The remap operations take the key map as a parameter, so they apply to either map.
