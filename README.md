# Upsert reconciliation of weather-station tables

This project models the upsert reconciliation engine in `funcs.py`. The engine
saves a freshly fetched dataset (stations, station info or observations) into
a table of the local store. It classifies each incoming row as new, changed
or unchanged against the stored rows. Then it deletes the stored rows of the
changed keys and appends the changed rows and the new ones. It reports
whether anything was written.

The model has five modules:

- `Rows` (`rows.dfy`): the row, its fingerprint and the filters over datasets.
  - A row is its key plus the string form of its non-key columns.
  - The fingerprint is the separator-less concatenation of those strings.
  - The filters select rows by key, drop rows by key, or select rows by
    fingerprint.
  - Their contracts say which rows they keep and that order is preserved.
- `Classify` (`classify.dfy`): `check_update` and `check_insert` as
  functions (`CheckUpdate`, `CheckInsert`).
  - Each follows the source's steps: set intersection or symmetric
    difference, then the filters.
  - Each is specified by an exact characterisation of what it returns:
    which rows, in which order, and how many copies of each.
- `Reconcile` (`reconcile.dfy`): what a save does to a table that already
  exists, as functions of the stored and incoming rows (`Upserted`, `Writes`),
  and the guarantees proved about them:
  - keys are kept;
  - key uniqueness is preserved, for keys without brackets or quotes (see
    "## Left out");
  - the result is `false` exactly when the table is unchanged;
  - idempotence, and where it stops.
- `Store` (`store.dfy`): the table as a class.
  - It has a `present` flag (the table exists) and a `rows` field.
  - `Delete` models `sql_delete`. `Append` models `to_sql(..., if_exists='append')`.
    `Save` models `sql_save`, whose new state is tied to `Upserted`.
- `Scenarios` (`scenarios.dfy`): two worked reconciliations on concrete tables.
  - A worked example of one save that keeps one key, changes one and adds
    one.
  - A pair of saves that shows where the value-level comparison misses a
    change.

Decisions about the source:

- **Fingerprint.** It is the separator-less concatenation of the string-cast
  non-key values. The change test compares fingerprint SETS through a
  symmetric difference, not fingerprints per key. The model keeps both,
  because the source does.
  - `ColumnShiftMissesChange` proves that moving text from one column into
    the next goes unnoticed.
  - `CrossKeyCoincidenceMissesSwap` proves that two keys swapping their
    values go unnoticed.
- **Update test.** `check_update` keeps the incoming rows whose fingerprint
  IS in the symmetric difference of the two fingerprint sets
  (`funcs.py:57-59`). For a row of a stored key, that means its fingerprint
  is not the fingerprint of any stored row whose key also comes in.
- **Saving the same rows twice need not be a no-op.**
  - It is a no-op when the stored table equals the incoming one
    (`UpsertSelf`, `Store.SaveTwice`).
  - It is a no-op after any save when no fingerprint coincides across keys
    and the incoming keys are unique (`SecondSaveWritesNothing`).
  - It is not a no-op in general. `SecondSaveCanWriteAgain` exhibits two
    stored rows and two incoming rows for which both saves write. This
    follows from comparing fingerprint sets rather than fingerprints per
    key, which the model keeps as the source has it.
  - All three statements take the store to return each row with the string
    forms it was written with (see "## Left out").

## Model

| member | source | states |
|---|---|---|
| `Rows.KeysOfColumn` | funcs.py:46 | the key set of a dataset (`set(df[id_col])`) holds exactly the key of each row, so it has at most as many members as there are rows |
| `Rows.ConcatAppend` | funcs.py:54-55 | the row-wise sum of string values is plain concatenation: summing the columns of a split row gives the sum of the left part followed by that of the right part |
| `Rows.FingerprintSplit` | funcs.py:54-55 | the fingerprint of a row, at any column boundary, is the concatenation of the fingerprints of the two parts: no separator records where a column ends |
| `Rows.SymmetricDifference` | funcs.py:57 | a value is in the result exactly when it is in one of the two sets and not the other |
| `Rows.WithKeyIn` | funcs.py:49-50 | keeps exactly the rows whose key is in the given set, as a subsequence of the input (original order) |
| `Rows.WithFingerprintIn` | funcs.py:59 | keeps exactly the rows whose fingerprint is in the given set, as a subsequence of the input |
| `Rows.KeyFilterCounts` | funcs.py:49-50 | the key filter keeps every copy of a row whose key is in the set, and no copy of the others |
| `Rows.FingerprintFilterCounts` | funcs.py:59 | the fingerprint filter keeps every copy of a row whose fingerprint is in the set, and no copy of the others |
| `Rows.WithKeyNotIn` | funcs.py:94-99 | the rows a delete by key list leaves: exactly those whose key is not listed, in their original relative order |
| `Rows.KeySplitPartitions` | funcs.py:94-99 | the deleted rows and the kept rows together are the table: lengths add up and every row keeps its multiplicity |
| `Rows.WithKeyNotInNone` | funcs.py:94-99 | deleting keys the table does not hold leaves it exactly as it was |
| `Classify.CheckUpdate` | funcs.py:36-64 | returns a subsequence of the incoming rows; a row is returned exactly when its key is stored and no stored row whose key also comes in (under any key) has its fingerprint; a returned row keeps all its incoming copies |
| `Classify.UpdateSelection` | funcs.py:52-59 | the fingerprint symmetric-difference filter over the common-key rows keeps exactly the rows characterised by CheckUpdate |
| `Classify.CheckInsert` | funcs.py:67-84 | returns a subsequence of the incoming rows; a row is returned exactly when its key is not in the stored table, with as many copies as it has in the incoming table |
| `Classify.CheckInsertSelf` | funcs.py:76-84 | a table classified against itself has no new key |
| `Classify.CheckUpdateSelf` | funcs.py:46-64 | a table classified against itself has no changed row |
| `Classify.DisjointKeys` | funcs.py:46-84 | with no key in common nothing is to be updated and the insert set is the whole incoming table |
| `Classify.FingerprintTwinMasksChange` | funcs.py:54-59 | an incoming row whose fingerprint equals that of any stored row with an incoming key, even another key's, is never reported as changed |
| `Classify.UpdatedRowsDiffer` | funcs.py:54-59 | a row reported as changed is not a stored row and differs in its values from every stored row of its key |
| `Classify.CrossKeyCoincidenceMissesSwap` | funcs.py:57-59 | two keys swapping their values are not reported as changed |
| `Classify.ColumnShiftMissesChange` | funcs.py:52-55 | values ["a","b"] replacing ["ab",""] under the same key are not reported as changed, because fingerprints have no separator |
| `Reconcile.WritesExactly` | funcs.py:136-148 | a save against an existing table writes exactly when some incoming key is not stored yet or some incoming fingerprint is not that of any stored row whose key also comes in |
| `Reconcile.Upserted` | funcs.py:137-148 | the table after a save against an existing table; a stored row survives exactly when its key is not among the updated keys |
| `Reconcile.WritesIffChanged` | funcs.py:136-148 | on an existing table the save reports a write exactly when the new table differs from the old one |
| `Reconcile.UpsertedKeys` | funcs.py:137-148 | the keys of the new table are the stored keys together with the incoming keys: none lost, all incoming present |
| `Reconcile.UpsertKeepsKeysUnique` | funcs.py:137-148 | with unique stored and incoming keys the new table has unique keys: a replaced key is re-added once, an inserted key is new |
| `Reconcile.UpsertedRows` | funcs.py:141-146 | every row of the new table was stored or came in; every incoming row with a new key and every changed row is in it |
| `Reconcile.UpsertSelf` | funcs.py:137-148 | saving the stored rows again leaves the table unchanged and reports no write |
| `Reconcile.UpsertDisjoint` | funcs.py:141-146 | when no incoming key is stored the incoming rows are appended as they are |
| `Reconcile.SecondSaveWritesNothing` | funcs.py:137-148 | with unique incoming keys and no fingerprint shared across keys, saving the same rows a second time writes nothing |
| `Scenarios.ChangeAndInsertUpdate` | funcs.py:46-61 | stored (1,a),(2,b) and incoming (1,a),(2,c),(3,d): the update set is exactly (2,c) |
| `Scenarios.ChangeAndInsertInsert` | funcs.py:76-81 | in the same example the insert set is exactly (3,d) |
| `Scenarios.ChangeAndInsertSave` | funcs.py:141-144 | in the same example the table becomes (1,a),(2,c),(3,d) and the save reports a write |
| `Scenarios.CoincidenceFirstSave` | funcs.py:141-144 | stored (1,a),(2,b) and incoming (1,b),(2,c): the first save only replaces key 2, leaving (1,a),(2,c) |
| `Scenarios.SecondSaveCanWriteAgain` | funcs.py:137-148 | in that example both the first and the second save of the same rows write |
| `Store.Table.Missing` | funcs.py:109-121 | the outcome of `check_table_exist` when the table is absent: no table and no rows |
| `Store.Table.Existing` | funcs.py:109-121 | the outcome of `check_table_exist` when the table exists: it holds the given rows |
| `Store.Table.Delete` | funcs.py:87-101 | the key column of the given rows becomes the IN-list; the table keeps exactly the rows whose key is not listed, in order, and its existence is unchanged |
| `Store.Table.Append` | funcs.py:143-146 | the batch is appended after the stored rows and the table exists afterwards |
| `Store.Table.Save` | funcs.py:124-153 | empty input: NeedDataToInsert, table untouched. Missing table: created holding exactly the input, result true. Existing table: becomes Upserted and the result is Writes. The result is false exactly when the rows did not change |
| `Store.SaveTwice` | funcs.py:124-153 | saving the same non-empty rows twice into a missing table reports a write the first time and none the second |

## Left out

- Fetching (`get_data`, funcs.py:6-19): HTTP, the single retry and JSON
  decoding are I/O. Its latent unbound variable on other statuses belongs to
  that layer.
- `round_na` (funcs.py:22-26): floating-point rounding and NaN detection.
  Values are opaque strings here.
- Connections (`connect_database`, and the `conn` parameters that are
  reopened or ignored, funcs.py:29-33): connection handling has no effect on
  the table contents.
- `check_table_exist` (funcs.py:109-121): the catalogue query is abstracted
  to the `present` field of `Store.Table`.
- The SQL text of `sql_delete` (funcs.py:95-97): the model deletes by key set.
  - SQLite type affinity in the comparison is not modelled.
  - The quoting of keys as text literals is not modelled. A key that
    contains `'` makes the DELETE malformed in the source, so `sql_save`
    raises at funcs.py:99 and writes nothing; the model deletes normally.
  - Removing every `[` and `]` from the query is not modelled. In the source
    a key that contains a bracket is altered in the IN-list, so its stale
    stored row survives the delete while the changed row is still appended
    (funcs.py:143). The table then holds that key twice.
- `Reconcile.UpsertKeepsKeysUnique`: holds for the source only when no key
  contains `[` or `]`, because of the bracket stripping above.
- `sql_upsert` (funcs.py:104-106): `sql_save` does not use it. It only calls
  `sql_delete` for a non-empty list, which `Store.Table.Delete` covers.
- `Store.Table.Delete`: on a table that does not exist, SQLite raises "no
  such table". The model's delete leaves the empty table as it is.
  `Store.Table.Save` only deletes from an existing table.
- pandas specifics are abstracted away:
  - `df.size` counts cells; the model counts rows.
  - `astype(str)` rendering of None and NaN: values arrive already as
    strings.
  - Read-back through SQLite: the model's store returns each row with the
    string forms it was written with. In the source the stored rows come
    back through `pd.read_sql` (funcs.py:42), whose re-inferred column types
    can render differently under `astype(str)` (funcs.py:54). For example,
    a column holding both -117 and -117.5 is read back as floats, so the
    stored -117 fingerprints as "-117.0" while the incoming -117 fingerprints
    as "-117", and that row is reported as changed on every save.
  - Fingerprints follow the stored table's column order. Rows are taken to
    hold their non-key values already in that order, with the same columns
    as the stored table. The errors that pandas and SQLite raise on a column
    mismatch are not modelled.
  - With no non-key column, numpy's row sum yields 0 for every row; the
    model's empty concatenation yields "" for every row. Both make all
    fingerprints equal.
- `Reconcile.UpsertSelf`: holds for the source only when the store returns
  the rows with the string forms they were written with.
- `Reconcile.SecondSaveWritesNothing`: holds for the source only under the
  same read-back identity.
- `Store.SaveTwice`: holds for the source only under the same read-back
  identity.
- Atomicity: the delete and the appends of the update branch are separate
  writes in the source. A crash between them is not modelled, and neither
  are concurrent runs.
- `main.py`: field extraction, unit conversion, time formatting and command
  line handling around `sql_save`.
