# grist-audit-cloud reconciliation core, in Dafny

grist-audit-cloud is a small web service that audits a Grist document. Each
run takes a snapshot of the document's column descriptors and of the rows of
one equipment table. It compares both with the snapshots stored by the
previous run, records which rows were removed or added, and annotates the
current rows for display.

This project models the pure core of that service and proves properties of it:

- `Values` (values.dfy): JSON-shaped cell values, Python truthiness, and
  Python's `str()` on scalars.
- `Order` (order.dfy): Python's `<` on strings and on `(tableId, colId)` pairs,
  and `sorted()` applied to a set. It is given as a specification function
  `Sort` and as the method `SortSet`.
- `SchemaScan` (schema_scan.dfy):
  - `ref_target`: the target of a `Ref:`/`RefList:` column type.
  - `scan_schema`: projects each listed column into a descriptor, numbered
    per table.
- `SchemaDiff` (schema_diff.dfy): `make_schema_diff` together with
  `_index_schema`, `_tables` and `FIELDS`. The ghost function `SchemaDiffOf`
  specifies it. The method `MakeSchemaDiff` follows the source loop by loop
  and is proved equal to `SchemaDiffOf`.
- `ContentDiff` (content_diff.dfy): `make_equip_diff`. The source walks a
  Python set, so the method visits the ids in an arbitrary order. It is
  specified by the set of records `EquipDiffOf`.
- `StatusMark` (status_mark.dfy): `mark_status_equip`. The current rows are
  objects (`EquipRow`) whose `status` and `kind` the method sets in place.
- `HistoryMerge` (history_merge.dfy): the history block of
  `background_audit`.
  - It snapshots the removed rows (with their stored fields) and the added
    rows (with their current fields).
  - It appends to each history only the snapshots whose (id, canonical
    fields) key the history did not already hold.
- `TableResolve` (table_resolve.dfy): `_normalize` and
  `resolve_target_table_id`.

External inputs are parameters:

- The document's tables and their columns.
- The previous snapshots.
- The contents of the history files.
- The configured target table settings.
- The timestamp, as an opaque string.

`make_equip_diff` does not reclassify rows by emptiness: a row whose stored
fields were empty and now hold values is CHANGED_ROW
(`ContentDiff.ScenarioEmptyBaselineIsChanged`).

## Model

| member | source | states |
|---|---|---|
| Values.Truthy | main.py:107-111 | Python's `bool()`: the falsy values are exactly None, False, 0, "", [] and {} |
| Values.PyStr | main.py:131-132 | `str(v)`: a string is itself, None is "None", booleans are "True"/"False", an integer is its decimal text with "-" before a negative one |
| Values.Decimal | main.py:131-132 | the decimal text of an integer has only digits and no leading zero |
| Values.DecimalValue | main.py:131-132 | `int(str(n)) == n`: the digits of `n`, read back most significant first, denote `n` |
| SchemaScan.TargetTail | main.py:92 | the capture of `([\w.$-]+)$` is the whole tail when the tail is such a run, or the tail without its final newline when that is; a non-empty capture is always one of those two |
| SchemaScan.RefTarget | main.py:90-93 | a non-empty result is a `[\w.$-]+` run `x` and the type is `Ref:x` or `RefList:x`, optionally followed by one final newline that `$` lets through |
| SchemaScan.RefTargetOfReference | main.py:90-93 | conversely, every `Ref:x` / `RefList:x` type, with or without that newline, yields exactly `x` |
| SchemaScan.Truncate | main.py:108-111 | `(v or "")[:240]`: falsy values give "", a string or list gives its first min(len, 240) elements, any other truthy value raises |
| SchemaScan.Project | main.py:102-113 | a descriptor exists exactly when neither slice raises; it carries the table and column id and its position; `isRef` holds iff `refTableId` is non-empty; `refTableId` is `ref_target(type)`; `isFormula` is `bool(isFormula) or bool(formula)`; `formula` and `description` are their truncations; `label` defaults to "" and `visibleCol` to None |
| SchemaScan.ProjectColumns | main.py:100-113 | one table fails exactly when one of its columns fails; otherwise descriptor `j` is column `j` projected at position `j` |
| SchemaScan.ScanSpec | main.py:97-114 | the scan fails exactly when some table fails; a successful scan has one descriptor per listed column |
| SchemaScan.ScanRows | main.py:97-114 | every scanned descriptor is the projection of one listed column, with `isRef` iff a target and the target equal to `ref_target(type)` |
| SchemaScan.ScanIndex | main.py:99-113 | column `j` of table `i` is entry `TotalColumns(tables[..i]) + j` of a successful scan, and that entry is exactly its projection at position `j`: with ScanSpec's count, this fixes every entry of the snapshot, tables in listing order and each table's columns in order |
| SchemaScan.ScanPrefix | main.py:99-113 | the scan of the first `m` tables is the start of the whole scan: later tables only append |
| SchemaScan.ScanSchema | main.py:97-114 | the two nested loops compute exactly `ScanSpec` |
| Order.StrLtStrictTotal | main.py:123-124 | Python's string `<` is irreflexive, transitive and total, so `sorted()` is well defined |
| Order.KeyLtStrictTotal | main.py:125 | the same holds for `<` on `(tableId, colId)` pairs |
| Order.SortSorts | main.py:123-125 | `sorted(s)` lists exactly the elements of `s`, in strictly increasing order, each once |
| Order.SortSet | main.py:123-125 | repeatedly taking the least remaining element computes `Sort` |
| Order.SortedStrings | main.py:123-124 | sorted table ids: exactly the set, increasing, empty for the empty set |
| Order.SortedKeys | main.py:125 | sorted keys: exactly the set, increasing, no repetition |
| Order.SortStrings | main.py:123-124 | the executable sort equals `SortedStrings` |
| Order.SortKeys | main.py:125 | the executable sort equals `SortedKeys` |
| SchemaDiff.Rank | main.py:95 | every tracked field has a position in `FIELDS` and sits at that position |
| SchemaDiff.IndexSchema | main.py:117 | the keys are exactly the (tableId, colId) pairs of the rows, and each maps to a row with that key |
| SchemaDiff.IndexSchemaLastWins | main.py:117 | for a duplicate key, the last row is the one kept |
| SchemaDiff.Tables | main.py:118 | a table id is in `_tables(rows)` iff some row carries it |
| SchemaDiff.TablesOfIndex | main.py:117-118 | `_tables(rows)` is the set of table ids of the indexed keys |
| SchemaDiff.FieldValueIsLookup | main.py:130 | `c.get(f)` is the value the descriptor object built by `scan_schema` holds under the field's name |
| SchemaDiff.FieldChanges | main.py:129-132 | every record the field loop emits is a CHANGED_FIELD for this key's table and column |
| SchemaDiff.FieldChangesSound | main.py:129-132 | every CHANGED_FIELD record is for a field whose values differ, with `str()` of the old and the new value |
| SchemaDiff.FieldChangesIncreasing | main.py:129-132 | the CHANGED_FIELD records of one column follow `FIELDS` order |
| SchemaDiff.FieldChangesComplete | main.py:129-132 | every tracked field whose values differ has its CHANGED_FIELD record |
| SchemaDiff.FieldChangesExact | main.py:129-132 | the three properties above, together |
| SchemaDiff.FieldChangesSelf | main.py:129-132 | a descriptor compared with itself yields no CHANGED_FIELD |
| SchemaDiff.MakeSchemaDiff | main.py:120-133 | the method's output equals the specification `SchemaDiffOf` |
| SchemaDiff.TableDiff | main.py:122-124 | ADDED_TABLE records for `sorted(tc - tb)`, then REMOVED_TABLE records for `sorted(tb - tc)` |
| SchemaDiff.FieldDiff | main.py:129-132 | the loop over `FIELDS` emits exactly `FieldChanges` |
| SchemaDiff.ColumnRecordsStep | main.py:125-132 | each key appends its own records after those of the keys before it |
| SchemaDiff.ColumnDiff | main.py:125-132 | the key loop emits exactly `ColumnRecords` for the sorted keys |
| SchemaDiff.SchemaDiffTables | main.py:122-124 | ADDED_TABLE appears iff the table is only in the current snapshot; REMOVED_TABLE iff it is only in the baseline |
| SchemaDiff.KeyRecords | main.py:126-132 | every record emitted for a key is a column record about that key; a key on one side only yields one record, ADDED_COL iff it is only current and REMOVED_COL iff it is only in the baseline; a key on neither side yields nothing |
| SchemaDiff.RecordsForColumns | main.py:125-132 | over distinct keys, a key's records in the output are exactly what its own iteration emitted |
| SchemaDiff.SchemaDiffRecordsFor | main.py:120-133 | a key's records in the whole diff are exactly the records its iteration emits |
| SchemaDiff.ColumnOnlyInCurrent | main.py:127 | a column only in the current snapshot yields exactly one ADDED_COL and nothing else |
| SchemaDiff.ColumnOnlyInBaseline | main.py:128 | a column only in the baseline yields exactly one REMOVED_COL and nothing else |
| SchemaDiff.ColumnOnBothSides | main.py:129-132 | a column on both sides yields one CHANGED_FIELD per differing tracked field, in `FIELDS` order, and nothing else |
| SchemaDiff.SchemaDiffSelf | main.py:120-133 | diffing a snapshot against itself reports nothing |
| SchemaDiff.FieldChangesSwap | main.py:129-132 | exchanging the two descriptors exchanges old and new values |
| SchemaDiff.ColumnRecordsSwap | main.py:125-132 | exchanging the snapshots turns ADDED_COL into REMOVED_COL and back, and exchanges old and new values, record for record |
| SchemaDiff.SchemaDiffSymmetric | main.py:120-133 | the diff of (b, a) is the diff of (a, b) with every record swapped, as a multiset |
| SchemaDiff.ColumnRecordsOrdered | main.py:125-132 | the column records are in ascending (tableId, colId) order |
| SchemaDiff.SchemaDiffOrdered | main.py:120-133 | the diff lists ADDED_TABLE records by table id, then REMOVED_TABLE records by table id, then column records by key |
| ContentDiff.Index | main.py:138-139 | the index's keys are exactly the row ids |
| ContentDiff.IndexLastWins | main.py:138-139 | for a duplicate id, the last row's fields are the ones compared |
| ContentDiff.Classify | main.py:143-149 | ADDED_ROW iff the id is only current, REMOVED_ROW iff it is only in the baseline, CHANGED_ROW iff it is on both sides with different fields |
| ContentDiff.EquipDiffMember | main.py:141-149 | a record is in the diff iff its id is on either side and the id's classification is its change type |
| ContentDiff.RecordFor | main.py:143-149 | the loop body emits the id's classification, or nothing |
| ContentDiff.RecordsOfExact | main.py:142-149 | visiting ids once emits exactly one record per classified visited id, and no id twice |
| ContentDiff.ClassifyIds | main.py:141-149 | whatever order the set is walked in, the output holds exactly the classified ids, each once |
| ContentDiff.MakeEquipDiff | main.py:136-150 | the output's records are exactly `EquipDiffOf(cur, base)`, with no id twice |
| ContentDiff.EquipDiffOneRecordPerId | main.py:141-149 | the diff never holds two records for one id |
| ContentDiff.EquipDiffClassification | main.py:136-150 | ADDED_ROW iff the id is only current; REMOVED_ROW iff it is only in the baseline; CHANGED_ROW iff it is on both sides with different (last) fields |
| ContentDiff.EquipDiffSelf | main.py:136-150 | comparing a snapshot with itself finds no change |
| ContentDiff.ScenarioOneRowAdded | main.py:136-150 | a new id is reported as ADDED_ROW and nothing else |
| ContentDiff.ScenarioEmptyBaselineIsChanged | main.py:148 | a row whose stored fields were empty and now hold a value is CHANGED_ROW, not ADDED_ROW |
| ContentDiff.ScenarioRowRemoved | main.py:136-150 | a vanished id is reported as REMOVED_ROW |
| StatusMark.KindName | main.py:158-162 | the four kinds have the four distinct names "added", "changed", "removed", "normal" |
| StatusMark.StatusFor | main.py:163 | the status is never "removed": "removed" shows as "normal", every other kind shows as itself |
| StatusMark.KindMap | main.py:155-160 | the ids with a kind are exactly the ids the diff mentions, and none of them is "normal" |
| StatusMark.KindFor | main.py:155-162 | an id is "normal" iff the diff does not mention it |
| StatusMark.KindForLast | main.py:156-160 | when the diff has several records for an id, the last one decides its kind |
| StatusMark.MarkStatusEquip | main.py:153-165 | every row gets its kind and its status in place, its fields are untouched, and the same rows are returned |
| StatusMark.MarkedKindIsClassification | main.py:153-165 | for a content diff of these rows, a row's kind is its id's classification (or "normal"), never "removed", and equals its status |
| HistoryMerge.Select | main.py:256-262 | the snapshots of one type are exactly the diff's records of that type, with the indexed fields (or `{}`) and the timestamp |
| HistoryMerge.Fresh | main.py:266-269 | a snapshot is appended iff it is offered and its key was not in the history |
| HistoryMerge.FreshSnoc | main.py:267-269 | one more offered snapshot is appended at the end iff its key is new |
| HistoryMerge.FreshAppend | main.py:267-269 | filtering distributes over concatenation, so the appended snapshots keep the order and multiplicity they were offered in |
| HistoryMerge.Merge | main.py:264-278 | a merge only appends: the old history is a prefix of the new one |
| HistoryMerge.AppendFresh | main.py:266-269 | the append loop computes `hist + Fresh(existing, snaps)` |
| HistoryMerge.MergeHistories | main.py:249-278 | both histories become the merge of their snapshots, and a history with no snapshots is left as it was |
| HistoryMerge.MergeAppendsFresh | main.py:266-269 | what a merge appends is exactly the snapshots with a new key |
| HistoryMerge.MergeRecordsAll | main.py:264-278 | after a merge, every snapshot's key is in the history |
| HistoryMerge.MergeIdempotent | main.py:264-278 | merging the same snapshots a second time adds nothing |
| HistoryMerge.MergeRerun | main.py:256-278 | a later run over the same diff, with another timestamp, appends nothing: the key leaves the timestamp out |
| HistoryMerge.HistoryUntouched | main.py:264-278 | a diff without records of a type leaves that history exactly as it was |
| HistoryMerge.SelectDistinct | main.py:256-262 | a diff with each id once gives snapshots with distinct ids |
| HistoryMerge.FreshDistinct | main.py:266-269 | the dedup step keeps snapshot ids distinct |
| HistoryMerge.MergeAppendsDistinct | main.py:264-278 | `existing` is computed once, yet one run never appends two snapshots of the same row |
| HistoryMerge.ScenarioRemovedRowIsRecorded | main.py:256-270 | a removed row lands in an empty removed history with its baseline fields |
| TableResolve.AsciiOnlyFacts | main.py:74 | dropping non-ASCII characters leaves only ASCII characters |
| TableResolve.StripFacts | main.py:75 | `strip()` first cuts a leading part that is all whitespace, then a trailing part that is all whitespace; what remains starts and ends with non-whitespace, so every leading and trailing whitespace character goes and nothing else does; clean text stays clean |
| TableResolve.CollapseChars | main.py:76 | after the substitution, no space or dot remains |
| TableResolve.CollapseEnds | main.py:76 | the substitution empties only the empty text, and a run of spaces or dots at either end becomes "_" there |
| TableResolve.CollapseKeeps | main.py:76 | text without spaces or dots is left unchanged |
| TableResolve.CollapseAppend | main.py:76 | text that does not end in a space or dot is substituted independently of what follows it |
| TableResolve.CollapseRun | main.py:76 | a maximal run of spaces and dots between two other parts becomes exactly one "_" and the parts on each side are substituted on their own |
| TableResolve.Normalize | main.py:72-77 | every result is ASCII, lower case, free of spaces and dots, and has no whitespace at either end |
| TableResolve.NormalizeFixes | main.py:72-77 | a text already in that form is its own normal form |
| TableResolve.NormalizeIdempotent | main.py:72-77 | normalising twice is normalising once |
| TableResolve.Matches | main.py:84-86 | a table matches iff its id or display name normalises to the wanted name's normal form: the exact test adds nothing |
| TableResolve.TableMatches | main.py:84-86 | the loop body's two tests are exactly `Matches` |
| TableResolve.ResolveTargetTableId | main.py:79-87 | a configured id wins; otherwise the first matching table's id; otherwise the wanted name, when no table matches |
| TableResolve.LooseNameMatches | main.py:72-86 | an ASCII wanted name whose lower case is two normalised words joined by one space (such as "Equip List") normalises to the words joined by "_", and so matches the table with that id |

## Left out

- HTTP calls to the document API, pagination (`_paged`, `fetch_rows`) and the fallback to the `/data` endpoint: tables, columns and rows arrive as parameters.
- The Flask routes, CORS headers, the background thread, the lock and the `PROGRESS` dictionary: these are I/O and concurrency.
- Reading and writing the JSON files (`save_json`, `load_json_list`, the snapshot files): the previous snapshots and the histories are parameters, and an unreadable or non-list history is the empty list. A history whose entries are not objects is not modelled. In the source, `h.get` raises inside the history step's `try`, and the step stops at that history: each history is read only when the diff has records of its kind (main.py:264, main.py:272), and the removed history is saved (main.py:270) before the added one is read (main.py:273-274). So a malformed added history leaves only the added history as it was. A malformed removed history, in a run with REMOVED_ROW records, leaves both as they were. In a run without REMOVED_ROW records the removed history is not read at all, and the added history is merged and saved as usual.
- The clock: `datetime.utcnow()` becomes an opaque `now` string.
- Exceptions swallowed by the history step's `try` in `background_audit` are not modelled.
- An exception raised by a slice in `scan_schema` is not swallowed: the outer `try` of `background_audit` (main.py:228) has only a `finally`, so the run ends before anything is saved. `ScanSpec` reports that case as `None`; the model does not follow the run any further.
- TableResolve.Normalize: NFKD decomposition is not modelled. Non-ASCII characters are dropped instead of first being decomposed into an ASCII base letter ("é" loses its letter instead of becoming "e"). Lower-casing and stripping are modelled on ASCII.
- SchemaScan.RefTarget: `\w` is taken as the ASCII word characters. Python also accepts Unicode letters and digits there.
- Values.PyStr: lists and objects are rendered as a fixed marker, not in Python's `repr` form. Floating-point cell values are not part of `Value`.
- Value equality is structural. Python's cross-type equalities (`True == 1`, `1 == 1.0`) are not modelled. The same equality stands for `json.dumps(fields, sort_keys=True)` in the history keys.
- ContentDiff.Row: row ids are integers (Grist row ids). A row without an `id` (a `KeyError` in the source) and a row whose `fields` is `null` are not modelled; in the source the latter is treated as if the row were absent.
- ContentDiff.MakeEquipDiff: the output order is that of Python set iteration. The model leaves it open and states only which records are present, and that no id repeats.
- SchemaScan.ScanSchema: a table id that is missing (`t.get("id")` is `None`) is not modelled; table ids are strings.
