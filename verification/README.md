# aapi_versioned, modelled in Dafny

`aapi_versioned` keeps a versioned PostgreSQL copy of the Amsterdam open-data
API. Every endpoint has a table whose rows carry `_id`, `_created` and
`_deleted` columns. A sync task reads all items of one API endpoint and turns
each into a row tuple of the database model (`model_transformer`). It compares
those tuples with the active rows of the table (`diff`), appends the new tuples
stamped with the start time and marks the vanished rows deleted at that same
time (`pull`). Each job's progress is recorded in a `sync_log` table.
`sync_all` runs every task in turn. All SQL text is produced by a small
immutable builder, `Query`, with `parse_qargs` turning Django-style keyword
arguments (`a__lte=3`) into condition terms.

The model is pure and functional. Every Python exception is an `Err` of
`Results.Result`. A database table is a value (`Store.Table`, `JobLog.Log`)
that the operations return updated.

| module | file | models |
|---|---|---|
| `Results` | results.dfy | `Option`, `Result` and the exception classes the code raises or lets through |
| `Datum` | datum.dfy | the Python values that reach the builder and the tables (`bool()`, `list()`, `str()`) |
| `Text` | text.dfy | `str.join`, `f'"{f}"'`, `f'{n:d}'`, `str.rsplit('__', 1)`, `str.split()`, `str.replace(' ', '')`, and placeholder counting |
| `QueryBuilder` | query_builder.dfy | `Query` of base.py: constructors, clause methods, `__str__`, `parse_qargs`, `quote_fields` |
| `QueryProperties` | query_properties.dfy | what single keyword arguments render to, the docstring example, parameter order |
| `QueryBalance` | query_balance.dfy | chains of builder calls: clause legality and the `%s`/parameter balance |
| `RowFilter` | row_filter.dfy | what the rendered WHERE clause selects in the database |
| `Ordering` | ordering.dfy | what `ORDER BY` does in the database: a stable sort on the key columns |
| `Store` | store.dfy | `Endpoint` and `Versioned` of db.py |
| `JobLog` | job_log.dfy | `SyncLog` and `LogItem` of sync_log.py |
| `Transform` | transform.dfy | `model_transformer` of sync.py |
| `Sync` | sync.py → sync.dfy | `Task.fetch`, `Task.diff`, `Task.pull`, `Sync.sync_all` |
| `Convergence` | convergence.dfy | why `pull` synchronises: a clean pull leaves nothing to append or delete |

Parameters stand in for the outside world:

- The API's answer is a `Sync.Remote`: the items its iteration yielded, then
  how it ended. It ended either completely, with a `requests.HTTPError`, or
  with another exception.
- The clock readings of `pull` are `ts` at the start and `tsEnd` at the end.
  `recent` takes the current time as `now`.
- The file and line a traceback names are the `location` string.
- Timestamps are integer microsecond counts.

The database's own behaviour is modelled only as far as the core relies on it:

- A missing relation or an unknown column fails the statement.
- `COPY` draws `_id` from the table's sequence.
- `UPDATE ... SET` assigns cells.
- The WHERE clause selects by the SQL meaning of each term, and a comparison
  with NULL is never true.
- `ORDER BY` sorts ascending with NULL last.

Where the code and its documentation disagree, the model follows the code:

- The `Query` docstring (base.py:67-82) shows `WHERE "field" = 3` and
  `ORDER BY "field4", "field5" DESC`. The code renders a `%s` placeholder for
  every value, and renders an order item without a modifier with a trailing
  space: `"field4" , "field5" DESC`. `QueryProperties.DocstringRender` states
  the text the code produces.
- An undeclared clause raises `TypeError`, the error `accept_clause` raises.
  It is not a dedicated exception class.
- Parameters are appended in call order, but clauses render in the fixed
  order VALUES, SET, WHERE. So `update(t).where(a=v).set(b=w)` binds `v` to
  the SET placeholder and `w` to the WHERE one. The promise that parameters
  follow placeholder order therefore holds only when calls are made in clause
  order. That is what every caller in the core does: `delete` and `status`
  call `set` before `where`. `QueryProperties.ParamsFollowCallOrder` exhibits
  the reordering. `QueryBalance.ChainRenderPlaceholders` proves that the
  number of placeholders equals the number of parameters under two
  conditions: no name in the chain contains `%`, and the `values` calls
  never name a column twice (the columns they add, together with the ones the
  query already holds, are distinct).
- `values` keeps one `%s` per column but binds every value it is given
  (base.py:197-203). A second `values` call that names a column again
  therefore binds a second parameter without adding a placeholder:
  `insert(t).values(a=1).values(a=2)` renders `INSERT INTO t ("a") VALUES (%s)`
  with two parameters, so parameters and placeholders no longer match. `QueryBalance.RepeatedColumnImbalance`
  states this for any table and column name without `%`. No caller in the
  core repeats a column.
- `Endpoint.count` cannot return a count as written (see Findings).

## Model

| member | source | states |
|---|---|---|
| Text.IntToStringRoundTrip | aapi_versioned/base.py:116-118 | the `{value:d}` text of a LIMIT reads back as the same integer, negative ones included |
| Text.RSplitOfSuffixed | aapi_versioned/base.py:228-229 | `k.rsplit('__', 1)` of `name__op`, with no underscore in `op`, gives back `name` and `op`, even when `name` itself contains `__` |
| Text.WordsOfPair | aapi_versioned/base.py:175-177 | `field.split()` of two words separated by a space is exactly those two words |
| Text.RemoveSpacesIdempotent | aapi_versioned/sync.py:266-270 | removing spaces from geometry text a second time changes nothing |
| QueryBuilder.QuoteFields | aapi_versioned/base.py:251-254 | one name per field, in order: a double quote, the field, a double quote |
| QueryBuilder.QuoteFieldsInjective | aapi_versioned/base.py:251-254 | different field lists quote to different name lists, so each field reads back from its quoted name |
| QueryBuilder.SplitKey | aapi_versioned/base.py:228-231 | a key with no `__` is an equality on the whole key |
| QueryBuilder.ParseQargs | aapi_versioned/base.py:213-248 | fails exactly when some argument fails (an `__in` value that is not iterable), and then with a `TypeError`; each argument gives at most one term and one value |
| QueryBuilder.Accept | aapi_versioned/base.py:162-164 | succeeds exactly for a clause the constructor declared and leaves the query unchanged; otherwise the `'X' is not valid for this query.` error |
| QueryBuilder.Limit | aapi_versioned/base.py:166-169 | a new query with only the limit replaced, or the not-valid error when LIMIT is undeclared |
| QueryBuilder.OrderItem | aapi_versioned/base.py:175-178 | fails with the `IndexError` of `field[0]` exactly when the item has no words |
| QueryBuilder.OrderItems | aapi_versioned/base.py:180 | one rendered item per field in order, or the failure of the first field that fails |
| QueryBuilder.OrderBy | aapi_versioned/base.py:174-182 | on a declared ORDER BY it succeeds exactly when every item renders, replacing only the order items; otherwise the not-valid error |
| QueryBuilder.Returning | aapi_versioned/base.py:184-188 | replaces only the RETURNING columns, unquoted, when declared; otherwise the not-valid error |
| QueryBuilder.Set | aapi_versioned/base.py:190-195 | appends the parsed terms to SET and their values to the parameters, leaving everything else; fails when SET is undeclared or parsing fails |
| QueryBuilder.MergeColumns | aapi_versioned/base.py:201 | the dict update keeps the known columns in place and appends the added ones the dict lacks, once each, in keyword order (`FirstNew`); with no repeats it is exactly known followed by added |
| QueryBuilder.FirstNewMembers | aapi_versioned/base.py:201 | the keys a dict update appends are exactly the added keys the dict lacks, each once |
| QueryBuilder.Values | aapi_versioned/base.py:197-203 | appends every keyword value to the parameters, in keyword order; the columns become the known ones followed by the new quoted keys in keyword order, and exactly known followed by all quoted keys when none repeats; fails exactly when VALUES is undeclared |
| QueryBuilder.Where | aapi_versioned/base.py:205-210 | appends one group holding the parsed terms and appends their values to the parameters; fails when WHERE is undeclared or parsing fails |
| QueryBuilder.GroupTexts | aapi_versioned/base.py:107-110 | one text per group, failing exactly when a group is empty |
| QueryBuilder.Render | aapi_versioned/base.py:93-124 | rendering fails exactly when a WHERE group has no terms; otherwise the text starts with the base statement |
| QueryProperties.SuffixedKey | aapi_versioned/base.py:228-229 | `name__op` splits into `name` and the operator `op` selects |
| QueryProperties.PlainKeyIsEquality | aapi_versioned/base.py:230-238 | a plain key is `"k" IS NULL` for None and otherwise `"k" = %s` binding the value |
| QueryProperties.EqSuffix | aapi_versioned/base.py:233-238 | `k__eq` behaves like the plain key `k` |
| QueryProperties.ComparisonSuffixes | aapi_versioned/base.py:222-241 | each suffix of `op_map` renders its SQL operator with one placeholder and binds the value |
| QueryProperties.IsNullSuffix | aapi_versioned/base.py:242-243 | `k__isnull` renders `IS  NULL` (two spaces) for a truthy value and `IS NOT NULL` otherwise, binding nothing |
| QueryProperties.InSuffix | aapi_versioned/base.py:244-246 | `k__in` renders `= ANY(%s)` and binds `list(v)`; a string gives its characters; anything else is a `TypeError` |
| QueryProperties.UnknownSuffixDropped | aapi_versioned/base.py:227-247 | an unknown suffix produces neither a term nor a value |
| QueryProperties.OrderItemForms | aapi_versioned/base.py:175-178 | one word renders as `"w" `; two words as `"w" mod`; three words drop the modifier; a blank item is an `IndexError` |
| QueryProperties.LimitLiteral | aapi_versioned/base.py:166-169 | `limit(n)` renders ` LIMIT ` and the decimal text of `n`, which reads back as `n` |
| QueryProperties.WhereEquality | aapi_versioned/base.py:205-210 | `where(k=v)` adds the group `["k" = %s]` and the parameter `v` |
| QueryProperties.OrRange | aapi_versioned/base.py:171-172 | `or_` adds its own group, here the two comparisons and their two values |
| QueryProperties.OrderByPair | aapi_versioned/base.py:174-182 | `order_by('a', 'b m')` gives the items `"a" ` and `"b" m` |
| QueryProperties.DocstringBuild | aapi_versioned/base.py:67-82 | the docstring's chain builds the query with parameters `[x, hi, lo]` in call order and the two WHERE groups |
| QueryProperties.DocstringRender | aapi_versioned/base.py:67-82 | the docstring statement renders the first group bare and the second parenthesised, then ORDER BY and LIMIT |
| QueryProperties.RenderExample | aapi_versioned/base.py:106-118 | groups are OR-joined; a group of several terms is parenthesised and AND-joined; ORDER BY and LIMIT follow |
| QueryProperties.ParamsFollowCallOrder | aapi_versioned/base.py:190-210 | `update(t).where(a=v).set(b=w)` binds `[v, w]` while its text puts the SET placeholder before the WHERE one |
| QueryBalance.ApplyLegality | aapi_versioned/base.py:162-164 | a call on an undeclared clause fails with the not-valid error; a successful call keeps the base and the declared clauses |
| QueryBalance.ChainLegality | aapi_versioned/base.py:130-164 | a chain using any undeclared clause fails, so the constructor alone decides which clauses a statement may have |
| QueryBalance.ConstructorsBalanced | aapi_versioned/base.py:135-160 | the constructors that accept clauses start with no placeholder and no parameter |
| QueryBalance.ParseQargsBalanced | aapi_versioned/base.py:213-248 | `parse_qargs` returns as many values as its terms have `%s` placeholders |
| QueryBalance.WhereKeepsBalance | aapi_versioned/base.py:205-210 | `where` keeps placeholders and parameters in balance |
| QueryBalance.SetKeepsBalance | aapi_versioned/base.py:190-195 | `set` keeps placeholders and parameters in balance |
| QueryBalance.ValuesKeepsBalance | aapi_versioned/base.py:197-203 | `values` with new columns keeps placeholders and parameters in balance |
| QueryBalance.OrderByKeepsBalance | aapi_versioned/base.py:174-182 | `order_by` adds no placeholder |
| QueryBalance.ChainKeepsBalance | aapi_versioned/base.py:166-210 | any chain of calls with `%`-free names, whose `values` never repeat a column, keeps the balance |
| QueryBalance.RenderPlaceholders | aapi_versioned/base.py:93-124 | a balanced query renders with exactly one `%s` per parameter and no other `%` |
| QueryBalance.ChainRenderPlaceholders | aapi_versioned/base.py:93-210 | end to end: a balanced query plus a chain whose names are free of `%` and whose `values` columns never repeat renders with as many placeholders as parameters |
| QueryBalance.RepeatedColumnImbalance | aapi_versioned/base.py:197-203 | the distinct-columns condition is needed: `insert(table).values(a=x).values(a=y)` starts balanced and uses clean names, yet renders one `%s` against two parameters |
| RowFilter.SingleGroup | aapi_versioned/base.py:106-110 | one `where` call selects the rows on which all its terms hold |
| RowFilter.OrWidens | aapi_versioned/base.py:171-172 | each `or_` call adds the rows its own group selects |
| RowFilter.GroupConjunction | aapi_versioned/base.py:108-109 | the terms of one call are AND-joined |
| RowFilter.NullNeverCompares | aapi_versioned/base.py:239-241 | a comparison with None selects no row |
| RowFilter.IsNullCondition | aapi_versioned/base.py:242-243 | `isnull=v` selects NULL cells when `v` is truthy and the other cells otherwise |
| RowFilter.InCondition | aapi_versioned/base.py:244-246 | `in` selects non-NULL cells found in the list |
| RowFilter.UnknownSuffixHolds | aapi_versioned/base.py:227-247 | an argument with an unknown suffix constrains nothing |
| RowFilter.ActiveCondition | aapi_versioned/sync.py:190 | `_deleted=None` selects exactly the rows whose `_deleted` is NULL |
| Ordering.SortByCorrect | aapi_versioned/base.py:112-114 | `ORDER BY` returns a permutation of the selected rows, sorted by the key columns |
| Store.Fields | aapi_versioned/db.py:138-148 | `_id`, `_created`, `_deleted`, then the model's fields in declaration order |
| Store.MaterializeColumns | aapi_versioned/db.py:158-162 | reading a stored row back through `Versioned(row[0], row[1], row[2], model(*row[3:]))` gives the same version |
| Store.ColumnsMaterialize | aapi_versioned/db.py:178-181 | a selected tuple is exactly the columns of the version built from it |
| Store.MaterializeAllTuples | aapi_versioned/db.py:158-162 | reading back all selected tuples gives the stored versions, in order |
| Store.TypeMap | aapi_versioned/db.py:111-123 | every annotation type outside `type_map` is a `KeyError` |
| Store.ModelDefs | aapi_versioned/db.py:202 | one definition per field, named like it and typed through `type_map`; a `KeyError` exactly when some type is unmapped |
| Store.VersionClash | aapi_versioned/db.py:198-203 | reports a model field named like a version column, which `dict()` rejects |
| Store.QueryCreateTable | aapi_versioned/db.py:196-204 | succeeds exactly when every type is mapped and no field repeats a version column; an unmapped type is a `KeyError` |
| Store.CreateTableColumns | aapi_versioned/db.py:196-204 | the CREATE TABLE lists `_id SERIAL PRIMARY KEY`, `_created TIMESTAMP NOT NULL`, `_deleted TIMESTAMP`, then each model field with its mapped type |
| Store.EnsureTable | aapi_versioned/db.py:168-170 | `create_table` makes the table present and keeps any rows it had |
| Store.CopyRows | aapi_versioned/db.py:155 | each COPY tuple is the creation time followed by the item |
| Store.Add | aapi_versioned/db.py:153-156 | appends one active row per item in order, with consecutive new ids and the given creation time, and leaves the old rows alone; fails without the table or on a tuple of the wrong width |
| Store.AddKeepsValid | aapi_versioned/db.py:153-156 | adding keeps ids unique and below the sequence |
| Store.DeleteQueryValue | aapi_versioned/db.py:173-175 | `delete` builds an UPDATE with the SET `_deleted` and one WHERE group `_deleted IS NULL AND _id = ANY(ids)` |
| Store.DeleteStatement | aapi_versioned/db.py:172-176 | the rendered UPDATE, with the timestamp and the id list as parameters in placeholder order |
| Store.Delete | aapi_versioned/db.py:172-176 | exactly the active rows with a listed id change, and only their `_deleted`, which becomes the given time |
| Store.DeleteFollowsWhere | aapi_versioned/db.py:172-176 | the rows `delete` changes are exactly those its WHERE clause selects |
| Store.DeleteIdempotent | aapi_versioned/db.py:172-176 | repeating a delete changes nothing |
| Store.DeleteKeepsValid | aapi_versioned/db.py:172-176 | deleting keeps the table valid |
| Store.AddNothing | aapi_versioned/db.py:153-156 | adding no items leaves an existing table as it was |
| Store.DeleteNothing | aapi_versioned/db.py:172-176 | deleting no ids leaves an existing table as it was |
| Store.Execute | aapi_versioned/base.py:40-52 | a SELECT whose one WHERE group comes from the keyword arguments returns the tuples of exactly the rows those conditions hold on; it fails when `where` or the text fails, the table is missing or a column is unknown |
| Store.All | aapi_versioned/db.py:158-162 | `all(**params)` returns exactly the stored versions the conditions hold on; a `self` keyword is the `TypeError` of a repeated argument; otherwise a call whose arguments yield no term fails with `IndexError` |
| Store.AllActive | aapi_versioned/db.py:158-162 | `all(_deleted=None)` returns the active rows, in the order the model fixes for a SELECT without ORDER BY (stored order) |
| Store.One | aapi_versioned/db.py:178-181 | the first row `all` would return, in the model's stored order; with none, the `TypeError` of subscripting None; a `self` keyword is the `TypeError` of a repeated argument |
| Store.CountAsWritten | aapi_versioned/db.py:164-166 | as written, `count` always fails: a `Query` cannot be unpacked into two names |
| Store.CountRows | aapi_versioned/db.py:164-166 | as intended, `count` is the number of rows `all` with the same conditions returns; a `self` keyword is the `TypeError` of a repeated argument |
| Store.TwentyOrderItems | aapi_versioned/db.py:185-189 | orders by `id, _created` when the model has an `id` field, else by `_id` |
| Store.TwentyStatement | aapi_versioned/db.py:183-191 | `twenty` binds the time twice, once per group, and orders by the id columns with LIMIT 20; the statement always renders |
| Store.TwentyCondition | aapi_versioned/db.py:186-188 | the two groups select the rows created at, or deleted at, the given time |
| Store.Twenty | aapi_versioned/db.py:183-191 | succeeds exactly on an existing table and returns at most twenty tuples, the tuples of the rows `TwentySelects` describes |
| Store.TwentySelects | aapi_versioned/db.py:183-191 | the rows returned are rows created or deleted at the time, in ORDER BY order; with at most twenty such rows they are all of them, as a multiset; otherwise no row left out sorts before a row returned |
| JobLog.FromTupleRoundTrip | aapi_versioned/sync_log.py:42-47 | `LogItem(*row)` reads back exactly the stored log row |
| JobLog.LogTableDefinition | aapi_versioned/sync_log.py:21-37 | one column per `LogItem` field in field order, with `created` and `deleted` defaulting to 0 |
| JobLog.CreateLogTable | aapi_versioned/sync_log.py:49-53 | creating the log keeps every existing row and the sequence |
| JobLog.StartStatement | aapi_versioned/sync_log.py:65-67 | the INSERT of `start` with target, `start` and the start time as parameters in placeholder order, returning `id` |
| JobLog.Start | aapi_versioned/sync_log.py:62-70 | appends one row with the next id, the target, status `start` and the start time, and returns that id; fails exactly without the log table |
| JobLog.Assignments | aapi_versioned/sync_log.py:76-77 | the SET list is valid exactly when every keyword is a plain assignment |
| JobLog.AssignAllCells | aapi_versioned/sync_log.py:76-79 | after the UPDATE every assigned column holds its value and every other column is unchanged |
| JobLog.Clash | aapi_versioned/sync_log.py:72 | the first keyword, in call order, that repeats a parameter of `status` (`self`, `job_id`, `status`), and none exactly when no keyword does |
| JobLog.Status | aapi_versioned/sync_log.py:72-79 | a keyword named `self`, `job_id` or `status` is the `TypeError` of a repeated argument, naming the first such keyword; a successful update keeps every row of another job and the number of rows |
| JobLog.StatusStatement | aapi_versioned/sync_log.py:76-78 | the UPDATE text of `status`, with the status, the keyword values and then the job id as parameters |
| JobLog.StatusUpdatesOneRow | aapi_versioned/sync_log.py:72-79 | the job's row gets the new status and every keyword column; its other columns are kept |
| JobLog.StatusKeepsIds | aapi_versioned/sync_log.py:72-79 | `status` keeps every id unless `id` itself is assigned |
| JobLog.ProgressStatus | aapi_versioned/sync_log.py:72-79 | with the keywords `pull` passes, `status` succeeds on an existing log and keeps the ids |
| JobLog.ProgressRow | aapi_versioned/sync_log.py:72-79 | after such an update the job's row has the status and the keyword values, and keeps every other column |
| JobLog.All | aapi_versioned/sync_log.py:42-47 | `all(**params)` returns exactly the log rows the conditions hold on, each as often as it is stored (same multiset), ordered by target then id; a `self` keyword is the `TypeError` of a repeated argument |
| JobLog.Midnight | aapi_versioned/sync_log.py:58-59 | the start of the day of a time: at most the time, less than a day before it, a whole number of days |
| JobLog.RecentCondition | aapi_versioned/sync_log.py:60 | `started__gte=since` selects exactly the jobs started at or after `since` |
| JobLog.RecentStatement | aapi_versioned/sync_log.py:55-60 | the statement of `recent` always builds and renders |
| JobLog.Recent | aapi_versioned/sync_log.py:55-60 | exactly the jobs started at or after midnight thirty days back; it succeeds exactly on an existing log |
| JobLog.AppendOnly | aapi_versioned/sync_log.py:49-79 | creating the table, `start` and `status` never remove or reorder rows and keep ids unique and below the sequence |
| Transform.MapFieldIdempotent | aapi_versioned/sync.py:262-270 | None stays None; a geometry field becomes text without spaces; any other field is kept; mapping twice changes nothing |
| Transform.IndexOf | aapi_versioned/sync.py:278 | `tuple.index` finds the first position of a name, and fails exactly when it is absent |
| Transform.Positions | aapi_versioned/sync.py:277-279 | the positions of all target fields in the API fields, or the `ValueError` of the first missing one |
| Transform.MakeGetter | aapi_versioned/sync.py:277-279 | the identity without an API model; otherwise the positions of the target fields, a `ValueError` for a missing field, or a `TypeError` for an empty target model |
| Transform.Gather | aapi_versioned/sync.py:263-264 | the picked fields in target order, or an `IndexError` when the item is too short |
| Transform.Build | aapi_versioned/sync.py:262-264 | a row with each field mapped, or a `TypeError` when `zip` leaves the model short of fields |
| Transform.ToMain | aapi_versioned/sync.py:253-281 | a row has the target model's width; it fails exactly when the item is too short for the getter |
| Transform.ToMainPicksByName | aapi_versioned/sync.py:272-279 | field `k` of the row is the mapped API field with the same name |
| Transform.ToMainIdentity | aapi_versioned/sync.py:277 | without an API model a stored tuple keeps its fields, each mapped |
| Transform.ToMainIdempotent | aapi_versioned/sync.py:253-281 | a produced row is a fixed point of the identity transformer, so a stored row compares equal to the tuple it was stored from |
| Transform.GatherAsWritten | aapi_versioned/sync.py:277-279 | as written, a one-position `itemgetter` returns the bare field, which `zip` then iterates |
| Transform.ToMainAsWritten | aapi_versioned/sync.py:262-264 | as written, `parse` agrees with `ToMain` except for a one-field API-model getter |
| Transform.SingleFieldGetter | aapi_versioned/sync.py:277-279 | a one-field model picked from a two-field API model gets a one-position getter |
| Transform.SingleFieldText | aapi_versioned/sync.py:262-279 | as written a one-field text row keeps only its first character; as intended it keeps the text |
| Transform.SingleFieldNumber | aapi_versioned/sync.py:262-279 | as written a one-field numeric row raises `TypeError`; as intended it keeps the number |
| Sync.AddTo | aapi_versioned/sync.py:173 | `set.add` contains the old members and the new one, and stays duplicate-free |
| Sync.Collect | aapi_versioned/sync.py:171-173 | succeeds exactly when every item transforms, and then holds exactly the produced rows, once each; otherwise it fails with the error of the first item that fails |
| Sync.Fetch | aapi_versioned/sync.py:164-178 | the distinct rows of all yielded items; the partial flag is set exactly after an `HTTPError`; fails on a missing field, an item that does not transform, or another exception |
| Sync.Remove | aapi_versioned/sync.py:193 | `set.remove` removes exactly that row |
| Sync.DiffRemaining | aapi_versioned/sync.py:190-197 | after the loop the API rows left are exactly those no stored row matched |
| Sync.DiffDoomed | aapi_versioned/sync.py:190-197 | the loop dooms exactly the rows of the reference definition, in visit order (the order `all` returns the rows, see "Row order" under Left out) |
| Sync.DoomedMembers | aapi_versioned/sync.py:190-197 | a stored row is doomed exactly when its tuple is not an API row or an earlier visited row (earlier in the order `all` returns) already took it |
| Sync.DiffBalance | aapi_versioned/sync.py:190-197 | every stored row either consumes one API row or is doomed |
| Sync.NoneDoomed | aapi_versioned/sync.py:190-197 | distinct stored tuples that are all API rows doom nothing |
| Sync.DiffInSync | aapi_versioned/sync.py:180-197 | when the stored tuples are exactly the API rows, `diff` adds nothing and dooms nothing |
| Sync.MainKeys | aapi_versioned/sync.py:187-191 | the stored rows' tuples through the identity transformer, one per row |
| Sync.Diff | aapi_versioned/sync.py:180-197 | the rows left to add are a duplicate-free part of the API rows; the doomed ids are active rows of the table; a `_deleted` main keyword, or else a `self` one, is a `TypeError`; the exact sets are `Sync.DiffExact` |
| Sync.DiffExact | aapi_versioned/sync.py:180-197 | for any `main_kwargs`, a `diff` that succeeds adds exactly the (distinct) API rows that no active row selected by `_deleted=None` and `main_kwargs` holds, and dooms exactly the ids `Doomed` gives for those rows, in the order `all` returns them |
| Sync.ActiveRecord | aapi_versioned/sync.py:190 | every row `diff` visits is an active stored row |
| Sync.ExceptionText | aapi_versioned/sync.py:239-242 | the logged error of a caught exception is never empty |
| Sync.ErrorText | aapi_versioned/sync.py:226-242 | the pull's error is empty exactly when the guarded part ran to the end after a complete fetch |
| Sync.Apply | aapi_versioned/sync.py:230-236 | the append and delete phases evolve the table; with nothing to delete no row is marked |
| Sync.Reconcile | aapi_versioned/sync.py:219-236 | fetch, diff and both phases: reaching the end means the fetch succeeded, partial exactly after an `HTTPError`; the table only evolves, and loses no active row after an incomplete fetch |
| Sync.Work | aapi_versioned/sync.py:217-243 | the guarded part only creates, appends and marks rows deleted at the start time, and deletes nothing after an incomplete fetch |
| Sync.StepsEvolve | aapi_versioned/sync.py:230-236 | `add` and `delete` each evolve the table, and deleting no ids marks nothing |
| Sync.PhasesEvolve | aapi_versioned/sync.py:230-236 | the two phases together evolve the table |
| Sync.Pull | aapi_versioned/sync.py:199-250 | skipped exactly when the table or the job cannot be started, and then nothing is logged or stored; a finished pull logs its final status last; a clean finish implies a complete fetch; the table only evolves |
| Sync.StatusTracks | aapi_versioned/sync.py:218-235 | a progress update succeeds, keeps the job's row in place with its id, target and start time, and sets the count it names |
| Sync.Plan | aapi_versioned/sync.py:219-228 | what the guarded part decides: it fails exactly when `fetch` or `diff` raises; the rows to add are those `diff` left; after an `HTTPError` the partial flag is set and nothing is to be deleted |
| Sync.AppendOutcome | aapi_versioned/sync.py:230-232 | on an existing table the append phase cannot raise: it stores the rows, logs `create` with their number exactly when there are any |
| Sync.DeleteOutcome | aapi_versioned/sync.py:234-236 | on an existing table the delete phase cannot raise: it marks the rows, logs `delete` with their number exactly when there are any |
| Sync.ApplyOutcome | aapi_versioned/sync.py:230-236 | both phases: the table appended to then deleted from, one status per phase that ran, and both counts in the job's row |
| Sync.ReconcileOutcome | aapi_versioned/sync.py:219-236 | after the fetch status: an exception in `fetch` or `diff` leaves the table and zero counts; otherwise the plan is carried out after the `sync` status |
| Sync.WorkOutcome | aapi_versioned/sync.py:217-236 | the guarded part logs `fetch`, then `sync` once the fetch returned, then the phase statuses, and does what its plan says or raises its exception |
| Sync.FinalRow | aapi_versioned/sync.py:245-250 | the closing update succeeds and writes `done` or `failed`, the finish time, and the error exactly when there is one, keeping the counts |
| Sync.PullLogsOutcome | aapi_versioned/sync.py:199-250 | on a valid log a pull is skipped or finishes with one new row closed with its outcome, the number of rows created and the number deleted; it never raises |
| Sync.PullRun | aapi_versioned/sync.py:207-250 | a pull that was not skipped is the guarded part followed by the closing update, with the job id the log handed out |
| Sync.PullStatuses | aapi_versioned/sync.py:217-250 | the statuses logged are `fetch`, `sync` once the fetch returned, `create` when rows are new, `delete` when rows vanished, then `done`, or `failed` after a partial fetch or an exception; an exception leaves the table untouched |
| Sync.PartialPull | aapi_versioned/sync.py:219-236 | after an `HTTPError` the pull ends `failed` with the partial-fetch message, appends every row `diff` left over, marks no row deleted, and logs the number created and zero deleted |
| Sync.PullKeepsLogValid | aapi_versioned/sync.py:199-250 | a pull keeps a valid log valid and raises nothing out of itself |
| Sync.PullKeepsValid | aapi_versioned/sync.py:199-250 | a pull keeps a valid table valid |
| Sync.WorkKeepsValid | aapi_versioned/sync.py:217-243 | the guarded part keeps a valid table valid |
| Sync.PullJob | aapi_versioned/sync.py:130-131 | one iteration of `sync_all`: the table evolves and a valid log stays valid with no exception |
| Sync.SyncAll | aapi_versioned/sync.py:126-131 | pulls every task in order, each table only evolving; only an exception from a pull stops the loop early; on a valid log every task is pulled and the log stays valid |
| Convergence.ActiveView | aapi_versioned/sync.py:187-197 | `diff` visits each active row once, with distinct ids, folding over their tuples |
| Convergence.AfterActive | aapi_versioned/sync.py:230-236 | after appending and deleting, the active rows are the undoomed old ones and the appended ones |
| Convergence.SurvivorTuples | aapi_versioned/sync.py:180-197 | the surviving rows' tuples are distinct and are exactly the API rows |
| Convergence.Converges | aapi_versioned/sync.py:180-236 | for distinct API rows that the stored form reproduces, `diff` succeeds on a valid table, both phases succeed, and diffing the same rows again gives nothing to add and nothing to delete |
| Convergence.FetchedFixed | aapi_versioned/sync.py:164-178 | fetched rows are distinct and are fixed points of the identity transformer |
| Convergence.WorkRan | aapi_versioned/sync.py:217-236 | when the guarded part ran cleanly, its fetch and diff succeeded and the table is the result of both phases |
| Convergence.PullConverges | aapi_versioned/sync.py:199-250 | after a pull without main filters that finished without an error, a second diff against the same API answer finds nothing to add or delete |
| Convergence.PartialPullAppends | aapi_versioned/sync.py:219-236 | after an `HTTPError` every stored row is kept as it was, and a fetched row is appended exactly when no active row holds it already |

## Left out

- Connections, cursors, commit and rollback: `SimpleDatabase` (base.py:14-64)
  is reduced to the effect of a statement on the table it names. A failing
  statement returns an `Err` and changes nothing. Connection loss and server
  errors beyond a missing table, an unknown column, a bad COPY width and an
  invalid SET list are not modelled.
- Logging: `logger` calls produce no state.
- The clock (`datetime.now()`, `datetime.today()`) is a parameter.
  `dertig_dagen_terug` and the filters of `Sync.__init__` exist only as the
  `main_kwargs` of a `Sync.Task`. The API side is the `Remote` parameter, so
  `origin_kwargs` are not modelled.
- `Sync.__init__`, `Sync.tasks` and `DB.__init__`: the fixed list of endpoints
  and tables becomes the `jobs` argument of `Sync.SyncAll`.
- The traceback's file name and line number in the logged error are the
  `location` parameter.
- Streaming: `fetchmany` batches and the lazy generators of `all` and
  `twenty` are modelled as whole sequences.
- Python sets are modelled as duplicate-free sequences in insertion order. The
  order in which `add` sends new rows, and therefore the ids they get, is
  modelled as that order; CPython's hash order is not modelled.
- Floating point, dates, times and geometry objects are opaque values;
  `str()` of geometry is an uninterpreted text.
- Type coercion by the database (a Python value into a column of another
  type) is not modelled beyond the log's column types.
- Collation: text orders by character code.
- The `SERIAL` sequence is modelled as a counter without gaps.
- `Query.copy`'s COPY protocol is the `Store.Add` effect; `Query.__str__` of a
  COPY statement is modelled (`QueryBuilder.Copy`) but has no property of its own.
- `web.py`, `models.py` and `app.py` are not part of this model.
- Sync.Fetch: the engine (`Sync.Fetch`, `Sync.Pull`, `Sync.SyncAll` and the
  `Convergence` lemmas) runs the corrected transformer `Transform.ToMain`, not
  the one as written at sync.py:277-279, whose discrepancy is logged under
  Findings; a pull with the as-written transformer is not modelled.
- Store.Execute: models a SELECT with one WHERE group from keyword arguments
  and no ORDER BY or LIMIT; `twenty` and the log's `all` apply their ordering
  and limit on top of it (`Ordering.SortBy`, `Take`).
- Row order of a SELECT without ORDER BY: db.py:158-162 (`all`, and `one`
  and `diff` through it) sends no ORDER BY, and PostgreSQL promises no order
  for it; an UPDATE such as `delete` may even move rows. The model fixes that
  order to stored (insertion) order. So when two active rows hold the same
  tuple, which of them `diff` keeps and which it dooms (`Sync.DiffDoomed`,
  `Sync.DoomedMembers`), and which row `one` returns, follow that choice; the
  database may pick the other.
- Store.All: states membership only in the successful case, since failures
  can come from the database (an unknown column) as well as from rendering.
- QueryBuilder.ParseQargs: bounds the number of terms and values per argument
  rather than restating each branch; the branches are stated one by one in
  the `QueryProperties` lemmas.

## Findings

| source | as written | input that shows it | evidently intended | confidence | as-written member | corrected member |
|---|---|---|---|---|---|---|
| aapi_versioned/db.py:165 | `query, params = Query.count(self.table_name).where(**params)` unpacks a `Query` object, which is not iterable, so `count` always raises `TypeError` | `count(_deleted=None)` on any table | the number of rows the conditions select | not executed | Store.CountAsWritten | Store.CountRows |
| aapi_versioned/sync.py:277-279 | `itemgetter` of a single index returns the bare field rather than a one-tuple, so `zip` in `parse` iterates the field itself | database model `("naam", str)`, API fields `("id", "naam")`, item `(1, "Centrum")`: the row is `("C",)`; with item `(1, 7)` iterating the int raises `TypeError` | the row `("Centrum",)` (resp. `(7,)`), as for models with two or more fields | not executed | Transform.ToMainAsWritten | Transform.ToMain |
