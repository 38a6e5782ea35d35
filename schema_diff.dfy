/** `make_schema_diff`: compare the current and the stored column-descriptor
    snapshots and list the table and column changes, in a deterministic order. */
module SchemaDiff {
  import opened Values
  import opened Order
  import opened SchemaScan

  /** The descriptor attributes whose changes are reported (`FIELDS`). */
  datatype Field = Type | IsFormula | RefTableId | VisibleCol | Label | Description

  /** `FIELDS`, in the order the changes are reported. */
  const Tracked: seq<Field> := [Type, IsFormula, RefTableId, VisibleCol, Label, Description]

  /** Position of a field in `Tracked`. */
  function Rank(f: Field): (n: nat)
    ensures n < |Tracked| && Tracked[n] == f
  {
    match f
    case Type => 0
    case IsFormula => 1
    case RefTableId => 2
    case VisibleCol => 3
    case Label => 4
    case Description => 5
  }

  /** The key under which the descriptor stores the field. */
  function FieldName(f: Field): string {
    match f
    case Type => "type"
    case IsFormula => "isFormula"
    case RefTableId => "refTableId"
    case VisibleCol => "visibleCol"
    case Label => "label"
    case Description => "description"
  }

  /** `c.get(f)` for a tracked field. */
  function FieldValue(c: Column, f: Field): Value {
    match f
    case Type => c.typ
    case IsFormula => Bool(c.isFormula)
    case RefTableId => Str(c.refTableId)
    case VisibleCol => c.visibleCol
    case Label => c.displayLabel
    case Description => c.description
  }

  /** `c.get(f)`: the value the descriptor object holds under the field's name. */
  lemma FieldValueIsLookup(c: Column, f: Field)
    ensures FieldName(f) in AsRecord(c) && FieldValue(c, f) == AsRecord(c)[FieldName(f)]
  {
  }

  /** One schema change record (`changeType` and its attributes). */
  datatype SchemaChange =
    | AddedTable(tableId: string)
    | RemovedTable(tableId: string)
    | AddedCol(tableId: string, colId: string)
    | RemovedCol(tableId: string, colId: string)
    | ChangedField(tableId: string, colId: string, field: Field, oldValue: string, newValue: string)
  {
    predicate IsColumnRecord() { AddedCol? || RemovedCol? || ChangedField? }

    function ColKey(): Key
      requires IsColumnRecord()
    {
      (tableId, colId)
    }

    /** The same record seen from the other side: added and removed exchange,
        old and new values exchange. */
    function Swap(): SchemaChange {
      match this
      case AddedTable(t) => RemovedTable(t)
      case RemovedTable(t) => AddedTable(t)
      case AddedCol(t, c) => RemovedCol(t, c)
      case RemovedCol(t, c) => AddedCol(t, c)
      case ChangedField(t, c, f, o, n) => ChangedField(t, c, f, n, o)
    }
  }

  function SwapAll(d: seq<SchemaChange>): (r: seq<SchemaChange>)
    ensures |r| == |d| && forall i :: 0 <= i < |d| ==> r[i] == d[i].Swap()
  {
    seq(|d|, i requires 0 <= i < |d| => d[i].Swap())
  }

  function KeyOf(c: Column): Key {
    (c.tableId, c.colId)
  }

  /** `_index_schema`: descriptors by (tableId, colId); a later duplicate replaces an earlier one. */
  function IndexSchema(rows: seq<Column>): (m: map<Key, Column>)
    ensures forall k :: k in m <==> exists i :: 0 <= i < |rows| && KeyOf(rows[i]) == k
    ensures forall k :: k in m ==> KeyOf(m[k]) == k
  {
    if rows == [] then map[]
    else
      var n := |rows| - 1;
      var front := IndexSchema(rows[..n]);
      assert forall i :: 0 <= i < n ==> rows[..n][i] == rows[i];
      front[KeyOf(rows[n]) := rows[n]]
  }

  /** The last descriptor with a given key is the one kept. */
  lemma {:induction false} IndexSchemaLastWins(rows: seq<Column>, i: int)
    requires 0 <= i < |rows|
    requires forall j :: i < j < |rows| ==> KeyOf(rows[j]) != KeyOf(rows[i])
    ensures IndexSchema(rows)[KeyOf(rows[i])] == rows[i]
  {
    var n := |rows| - 1;
    assert IndexSchema(rows) == IndexSchema(rows[..n])[KeyOf(rows[n]) := rows[n]];
    if i < n {
      assert forall j :: i < j < n ==> rows[..n][j] == rows[j];
      IndexSchemaLastWins(rows[..n], i);
    }
  }

  /** `_tables`: the table ids the snapshot mentions. */
  function Tables(rows: seq<Column>): (r: set<string>)
    ensures forall t :: t in r <==> exists i :: 0 <= i < |rows| && rows[i].tableId == t
  {
    set r | r in rows :: r.tableId
  }

  /** The tables of a snapshot are exactly the tables of its indexed keys. */
  lemma TablesOfIndex(rows: seq<Column>)
    ensures Tables(rows) == set k | k in IndexSchema(rows) :: k.0
  {
    var m := IndexSchema(rows);
    forall t | t in Tables(rows) ensures t in set k | k in m :: k.0 {
      var r :| r in rows && r.tableId == t;
      var i :| 0 <= i < |rows| && rows[i] == r;
      assert KeyOf(rows[i]) in m;
    }
  }

  /** The CHANGED_FIELD records for the first `n` tracked fields of one column. */
  function FieldChanges(t: string, col: string, b: Column, c: Column, n: nat): (r: seq<SchemaChange>)
    requires n <= |Tracked|
    ensures forall i :: 0 <= i < |r| ==> r[i].ChangedField? && r[i].tableId == t && r[i].colId == col
  {
    if n == 0 then []
    else
      var f := Tracked[n - 1];
      FieldChanges(t, col, b, c, n - 1) + FieldRecord(t, col, b, c, f)
  }

  /** The CHANGED_FIELD record, if any, that field `f` contributes. */
  function FieldRecord(t: string, col: string, b: Column, c: Column, f: Field): seq<SchemaChange> {
    if FieldValue(b, f) != FieldValue(c, f)
    then [ChangedField(t, col, f, PyStr(FieldValue(b, f)), PyStr(FieldValue(c, f)))]
    else []
  }

  /** `x` is the CHANGED_FIELD record for a field whose value differs between `b` and `c`. */
  ghost predicate ReportsChange(x: SchemaChange, t: string, col: string, b: Column, c: Column) {
    && x.ChangedField? && x.tableId == t && x.colId == col
    && FieldValue(b, x.field) != FieldValue(c, x.field)
    && x.oldValue == PyStr(FieldValue(b, x.field))
    && x.newValue == PyStr(FieldValue(c, x.field))
  }

  /** Every record FieldChanges emits reports a field, among the first `n`, whose values differ. */
  lemma {:induction false} FieldChangesSound(t: string, col: string, b: Column, c: Column, n: nat)
    requires n <= |Tracked|
    ensures forall x :: x in FieldChanges(t, col, b, c, n) ==> ReportsChange(x, t, col, b, c) && Rank(x.field) < n
  {
    if n > 0 {
      FieldChangesSound(t, col, b, c, n - 1);
      var f := Tracked[n - 1];
      var front := FieldChanges(t, col, b, c, n - 1);
      var tail := FieldRecord(t, col, b, c, f);
      var r := front + tail;
      assert FieldChanges(t, col, b, c, n) == r;
      assert Rank(f) == n - 1;
      forall x | x in r ensures ReportsChange(x, t, col, b, c) && Rank(x.field) < n {
        if x !in front {
          assert x in tail;
        }
      }
    }
  }

  /** The records are in strictly increasing `FIELDS` order. */
  ghost predicate InFieldOrder(r: seq<SchemaChange>)
    requires forall i :: 0 <= i < |r| ==> r[i].ChangedField?
  {
    forall i, j :: 0 <= i < j < |r| ==> Rank(r[i].field) < Rank(r[j].field)
  }

  /** Every record of `r` is about a field ranked below `m`. */
  ghost predicate RanksBelow(r: seq<SchemaChange>, m: nat) {
    forall x :: x in r ==> x.ChangedField? && Rank(x.field) < m
  }

  lemma FieldChangesRanks(t: string, col: string, b: Column, c: Column, n: nat)
    requires n <= |Tracked|
    ensures RanksBelow(FieldChanges(t, col, b, c, n), n)
  {
    FieldChangesSound(t, col, b, c, n);
  }

  /** FieldChanges lists its records in `FIELDS` order. */
  lemma {:induction false} FieldChangesIncreasing(t: string, col: string, b: Column, c: Column, n: nat)
    requires n <= |Tracked|
    ensures InFieldOrder(FieldChanges(t, col, b, c, n))
  {
    if n > 0 {
      FieldChangesIncreasing(t, col, b, c, n - 1);
      FieldChangesRanks(t, col, b, c, n - 1);
      var f := Tracked[n - 1];
      var front := FieldChanges(t, col, b, c, n - 1);
      var tail := FieldRecord(t, col, b, c, f);
      assert FieldChanges(t, col, b, c, n) == front + tail;
      assert Rank(f) == n - 1;
      InFieldOrderAppend(front, tail, n - 1);
    }
  }

  /** Records for fields ranked below `m`, followed by at most one record for
      the field ranked `m`, stay in field order. */
  lemma InFieldOrderAppend(front: seq<SchemaChange>, tail: seq<SchemaChange>, m: nat)
    requires forall i :: 0 <= i < |front| ==> front[i].ChangedField?
    requires InFieldOrder(front)
    requires RanksBelow(front, m)
    requires |tail| <= 1 && forall i :: 0 <= i < |tail| ==> tail[i].ChangedField? && Rank(tail[i].field) == m
    ensures forall i :: 0 <= i < |front + tail| ==> (front + tail)[i].ChangedField?
    ensures InFieldOrder(front + tail)
  {
    var r := front + tail;
    forall i, j | 0 <= i < j < |r| ensures Rank(r[i].field) < Rank(r[j].field) {
      if j < |front| {
        assert r[i] == front[i] && r[j] == front[j];
      } else {
        assert r[i] == front[i] && front[i] in front && r[j] == tail[0];
      }
    }
  }

  /** Every differing field among the first `n` has its CHANGED_FIELD record. */
  lemma {:induction false} FieldChangesComplete(t: string, col: string, b: Column, c: Column, n: nat)
    requires n <= |Tracked|
    ensures forall f :: Rank(f) < n && FieldValue(b, f) != FieldValue(c, f) ==>
      ChangedField(t, col, f, PyStr(FieldValue(b, f)), PyStr(FieldValue(c, f))) in FieldChanges(t, col, b, c, n)
  {
    if n > 0 {
      FieldChangesComplete(t, col, b, c, n - 1);
      var f := Tracked[n - 1];
      var front := FieldChanges(t, col, b, c, n - 1);
      var r := FieldChanges(t, col, b, c, n);
      assert front <= r;
      forall g | Rank(g) < n && FieldValue(b, g) != FieldValue(c, g)
        ensures ChangedField(t, col, g, PyStr(FieldValue(b, g)), PyStr(FieldValue(c, g))) in r
      {
        if Rank(g) == n - 1 { assert g == f; }
      }
    }
  }

  /** The first `n` tracked fields yield one CHANGED_FIELD per field whose values
      differ, in `FIELDS` order, with the old value from `b` and the new from `c`. */
  lemma FieldChangesExact(t: string, col: string, b: Column, c: Column, n: nat)
    requires n <= |Tracked|
    ensures var r := FieldChanges(t, col, b, c, n);
      && (forall i :: 0 <= i < |r| ==> ReportsChange(r[i], t, col, b, c) && Rank(r[i].field) < n)
      && (forall i, j :: 0 <= i < j < |r| ==> Rank(r[i].field) < Rank(r[j].field))
      && (forall f :: Rank(f) < n && FieldValue(b, f) != FieldValue(c, f) ==>
            ChangedField(t, col, f, PyStr(FieldValue(b, f)), PyStr(FieldValue(c, f))) in r)
  {
    FieldChangesSound(t, col, b, c, n);
    FieldChangesIncreasing(t, col, b, c, n);
    FieldChangesComplete(t, col, b, c, n);
  }

  /** The records emitted for one (tableId, colId) key. */
  function KeyRecords(k: Key, ic: map<Key, Column>, ib: map<Key, Column>): (r: seq<SchemaChange>)
    ensures AllAbout(r, k)
    ensures (k in ic) != (k in ib) ==> |r| == 1
    ensures forall x :: x in r ==>
      && (x.AddedCol? <==> k in ic && k !in ib)
      && (x.RemovedCol? <==> k in ib && k !in ic)
    ensures k !in ic && k !in ib ==> r == []
  {
    if k in ic && k !in ib then [AddedCol(k.0, k.1)]
    else if k in ib && k !in ic then [RemovedCol(k.0, k.1)]
    else if k in ib && k in ic then FieldChanges(k.0, k.1, ib[k], ic[k], |Tracked|)
    else []
  }

  function ColumnRecords(ks: seq<Key>, ic: map<Key, Column>, ib: map<Key, Column>): seq<SchemaChange> {
    if ks == [] then []
    else ColumnRecords(ks[..|ks| - 1], ic, ib) + KeyRecords(ks[|ks| - 1], ic, ib)
  }

  function AddedTables(ts: seq<string>): seq<SchemaChange> {
    seq(|ts|, i requires 0 <= i < |ts| => AddedTable(ts[i]))
  }

  function RemovedTables(ts: seq<string>): seq<SchemaChange> {
    seq(|ts|, i requires 0 <= i < |ts| => RemovedTable(ts[i]))
  }

  lemma TablesExtend(ts: seq<string>, i: int)
    requires 0 <= i < |ts|
    ensures AddedTables(ts[..i + 1]) == AddedTables(ts[..i]) + [AddedTable(ts[i])]
    ensures RemovedTables(ts[..i + 1]) == RemovedTables(ts[..i]) + [RemovedTable(ts[i])]
  {
  }

  /** The specification of `make_schema_diff(cur, base)`. */
  ghost function SchemaDiffOf(cur: seq<Column>, base: seq<Column>): seq<SchemaChange> {
    var ic := IndexSchema(cur);
    var ib := IndexSchema(base);
    AddedTables(SortedStrings(Tables(cur) - Tables(base)))
      + RemovedTables(SortedStrings(Tables(base) - Tables(cur)))
      + ColumnRecords(SortedKeys(ic.Keys + ib.Keys), ic, ib)
  }

  /** `make_schema_diff`, loop by loop. */
  method MakeSchemaDiff(cur: seq<Column>, base: seq<Column>) returns (out: seq<SchemaChange>)
    ensures out == SchemaDiffOf(cur, base)
  {
    var ic := IndexSchema(cur);
    var ib := IndexSchema(base);
    var tc := Tables(cur);
    var tb := Tables(base);
    var tables := TableDiff(tc, tb);
    var keys := SortKeys(ic.Keys + ib.Keys);
    var cols := ColumnDiff(keys, ic, ib);
    out := tables + cols;
  }

  /** The two loops of `make_schema_diff` over the sorted added and removed table ids. */
  method TableDiff(tc: set<string>, tb: set<string>) returns (out: seq<SchemaChange>)
    ensures out == AddedTables(SortedStrings(tc - tb)) + RemovedTables(SortedStrings(tb - tc))
  {
    out := [];
    var added := SortStrings(tc - tb);
    for i := 0 to |added|
      invariant out == AddedTables(added[..i])
    {
      TablesExtend(added, i);
      out := out + [AddedTable(added[i])];
    }
    assert added[..|added|] == added;
    var removed := SortStrings(tb - tc);
    ghost var addedPart := out;
    for i := 0 to |removed|
      invariant out == addedPart + RemovedTables(removed[..i])
    {
      TablesExtend(removed, i);
      out := out + [RemovedTable(removed[i])];
    }
    assert removed[..|removed|] == removed;
  }

  /** One more key appends that key's records. */
  lemma ColumnRecordsStep(keys: seq<Key>, i: int, ic: map<Key, Column>, ib: map<Key, Column>)
    requires 0 <= i < |keys|
    ensures ColumnRecords(keys[..i + 1], ic, ib) == ColumnRecords(keys[..i], ic, ib) + KeyRecords(keys[i], ic, ib)
  {
    assert keys[..i + 1][..i] == keys[..i];
  }

  /** The loop over `FIELDS` for a key on both sides. */
  method FieldDiff(t: string, col: string, b: Column, c: Column) returns (out: seq<SchemaChange>)
    ensures out == FieldChanges(t, col, b, c, |Tracked|)
  {
    out := [];
    for j := 0 to |Tracked|
      invariant out == FieldChanges(t, col, b, c, j)
    {
      var f := Tracked[j];
      if FieldValue(b, f) != FieldValue(c, f) {
        out := out + [ChangedField(t, col, f, PyStr(FieldValue(b, f)), PyStr(FieldValue(c, f)))];
      }
    }
  }

  /** The loop of `make_schema_diff` over the sorted (tableId, colId) keys. */
  method ColumnDiff(keys: seq<Key>, ic: map<Key, Column>, ib: map<Key, Column>) returns (out: seq<SchemaChange>)
    ensures out == ColumnRecords(keys, ic, ib)
  {
    out := [];
    for i := 0 to |keys|
      invariant out == ColumnRecords(keys[..i], ic, ib)
    {
      var k := keys[i];
      var part: seq<SchemaChange> := [];
      if k in ic && k !in ib {
        part := [AddedCol(k.0, k.1)];
      } else if k in ib && k !in ic {
        part := [RemovedCol(k.0, k.1)];
      } else if k in ib && k in ic {
        part := FieldDiff(k.0, k.1, ib[k], ic[k]);
      }
      assert part == KeyRecords(k, ic, ib);
      ColumnRecordsStep(keys, i, ic, ib);
      out := out + part;
    }
    assert keys[..|keys|] == keys;
  }

  // ---------------------------------------------------------------------------
  // Records per key

  /** The column records of `d` that concern key `k`, in order. */
  function RecordsFor(d: seq<SchemaChange>, k: Key): seq<SchemaChange> {
    if d == [] then []
    else
      var last := d[|d| - 1];
      RecordsFor(d[..|d| - 1], k) + (if last.IsColumnRecord() && last.ColKey() == k then [last] else [])
  }

  lemma {:induction false} RecordsForAppend(a: seq<SchemaChange>, b: seq<SchemaChange>, k: Key)
    ensures RecordsFor(a + b, k) == RecordsFor(a, k) + RecordsFor(b, k)
    decreases |b|
  {
    if b != [] {
      var n := |b| - 1;
      assert (a + b)[..|a + b| - 1] == a + b[..n];
      RecordsForAppend(a, b[..n], k);
    } else {
      assert a + b == a;
    }
  }

  lemma {:induction false} RecordsForTables(ts: seq<string>, k: Key)
    ensures RecordsFor(AddedTables(ts), k) == [] && RecordsFor(RemovedTables(ts), k) == []
  {
    if ts != [] {
      var n := |ts| - 1;
      assert AddedTables(ts)[..n] == AddedTables(ts[..n]);
      assert RemovedTables(ts)[..n] == RemovedTables(ts[..n]);
      RecordsForTables(ts[..n], k);
    }
  }

  /** Every record of `d` is a column record about key `k`. */
  ghost predicate AllAbout(d: seq<SchemaChange>, k: Key) {
    forall r :: r in d ==> r.IsColumnRecord() && r.ColKey() == k
  }

  lemma {:induction false} RecordsForOwnKey(d: seq<SchemaChange>, k: Key)
    requires AllAbout(d, k)
    ensures RecordsFor(d, k) == d
  {
    if d != [] {
      var front := d[..|d| - 1];
      var last := d[|d| - 1];
      assert d == front + [last];
      assert AllAbout(front, k);
      RecordsForOwnKey(front, k);
      assert last in d;
    }
  }

  lemma {:induction false} RecordsForOtherKey(d: seq<SchemaChange>, k: Key, k': Key)
    requires k != k'
    requires AllAbout(d, k')
    ensures RecordsFor(d, k) == []
  {
    if d != [] {
      assert forall r :: r in d[..|d| - 1] ==> r in d;
      RecordsForOtherKey(d[..|d| - 1], k, k');
    }
  }

  lemma {:induction false} RecordsForColumns(ks: seq<Key>, ic: map<Key, Column>, ib: map<Key, Column>, k: Key)
    requires Distinct(ks)
    ensures RecordsFor(ColumnRecords(ks, ic, ib), k) == if k in ks then KeyRecords(k, ic, ib) else []
  {
    if ks != [] {
      var n := |ks| - 1;
      assert Distinct(ks[..n]);
      RecordsForColumns(ks[..n], ic, ib, k);
      RecordsForLastKey(ks, ic, ib, k);
    }
  }

  /** Appending records that all concern key `k'` adds them to `k`'s records
      exactly when `k'` is `k`. */
  lemma RecordsForSnoc(front: seq<SchemaChange>, kr: seq<SchemaChange>, k: Key, k': Key)
    requires AllAbout(kr, k')
    ensures RecordsFor(front + kr, k) == RecordsFor(front, k) + (if k' == k then kr else [])
  {
    RecordsForAppend(front, kr, k);
    if k' == k {
      RecordsForOwnKey(kr, k);
    } else {
      RecordsForOtherKey(kr, k, k');
    }
  }

  lemma InLast(ks: seq<Key>, k: Key)
    requires ks != []
    ensures k in ks <==> k in ks[..|ks| - 1] || k == ks[|ks| - 1]
  {
    assert ks == ks[..|ks| - 1] + [ks[|ks| - 1]];
  }

  /** The step of `RecordsForColumns`: the last key's records add `k`'s records
      exactly when the last key is `k`. */
  lemma RecordsForLastKey(ks: seq<Key>, ic: map<Key, Column>, ib: map<Key, Column>, k: Key)
    requires ks != [] && Distinct(ks)
    requires RecordsFor(ColumnRecords(ks[..|ks| - 1], ic, ib), k) == if k in ks[..|ks| - 1] then KeyRecords(k, ic, ib) else []
    ensures RecordsFor(ColumnRecords(ks, ic, ib), k) == if k in ks then KeyRecords(k, ic, ib) else []
  {
    var n := |ks| - 1;
    var front := ColumnRecords(ks[..n], ic, ib);
    var kr := KeyRecords(ks[n], ic, ib);
    assert ColumnRecords(ks, ic, ib) == front + kr;
    RecordsForSnoc(front, kr, k, ks[n]);
    InLast(ks, k);
    if ks[n] == k {
      assert k !in ks[..n];
    }
  }

  /** Every record about key `k` in the diff is one `KeyRecords` emits for `k`:
      the diff's column records for a key are exactly that key's records. */
  lemma SchemaDiffRecordsFor(cur: seq<Column>, base: seq<Column>, k: Key)
    ensures var ic := IndexSchema(cur); var ib := IndexSchema(base);
      RecordsFor(SchemaDiffOf(cur, base), k) == KeyRecords(k, ic, ib)
  {
    var ic := IndexSchema(cur);
    var ib := IndexSchema(base);
    var a := SortedStrings(Tables(cur) - Tables(base));
    var r := SortedStrings(Tables(base) - Tables(cur));
    var ks := SortedKeys(ic.Keys + ib.Keys);
    RecordsForAppend(AddedTables(a) + RemovedTables(r), ColumnRecords(ks, ic, ib), k);
    RecordsForAppend(AddedTables(a), RemovedTables(r), k);
    RecordsForTables(a, k);
    RecordsForTables(r, k);
    RecordsForColumns(ks, ic, ib, k);
  }

  /** The table records a list of table ids produces. */
  lemma TableRecordsMembers(ts: seq<string>, t: string)
    ensures AddedTable(t) in AddedTables(ts) <==> t in ts
    ensures RemovedTable(t) in RemovedTables(ts) <==> t in ts
    ensures AddedTable(t) !in RemovedTables(ts) && RemovedTable(t) !in AddedTables(ts)
  {
    if t in ts {
      var i :| 0 <= i < |ts| && ts[i] == t;
      assert AddedTables(ts)[i] == AddedTable(t);
      assert RemovedTables(ts)[i] == RemovedTable(t);
    }
  }

  /** ADDED_TABLE exactly for the tables only the current snapshot mentions,
      REMOVED_TABLE exactly for those only the baseline mentions. */
  lemma SchemaDiffTables(cur: seq<Column>, base: seq<Column>, t: string)
    ensures AddedTable(t) in SchemaDiffOf(cur, base) <==> t in Tables(cur) && t !in Tables(base)
    ensures RemovedTable(t) in SchemaDiffOf(cur, base) <==> t in Tables(base) && t !in Tables(cur)
  {
    var ic := IndexSchema(cur);
    var ib := IndexSchema(base);
    var a := SortedStrings(Tables(cur) - Tables(base));
    var r := SortedStrings(Tables(base) - Tables(cur));
    var cols := ColumnRecords(SortedKeys(ic.Keys + ib.Keys), ic, ib);
    assert SchemaDiffOf(cur, base) == AddedTables(a) + RemovedTables(r) + cols;
    ColumnRecordsNoTables(SortedKeys(ic.Keys + ib.Keys), ic, ib, t);
    TableRecordsMembers(a, t);
    TableRecordsMembers(r, t);
  }

  lemma ColumnRecordsNoTables(ks: seq<Key>, ic: map<Key, Column>, ib: map<Key, Column>, t: string)
    ensures AddedTable(t) !in ColumnRecords(ks, ic, ib) && RemovedTable(t) !in ColumnRecords(ks, ic, ib)
  {
    ColumnRecordsKeys(ks, ic, ib);
  }

  /** A column only in the current snapshot yields exactly one ADDED_COL and nothing else. */
  lemma ColumnOnlyInCurrent(cur: seq<Column>, base: seq<Column>, k: Key)
    requires k in IndexSchema(cur) && k !in IndexSchema(base)
    ensures RecordsFor(SchemaDiffOf(cur, base), k) == [AddedCol(k.0, k.1)]
  {
    SchemaDiffRecordsFor(cur, base, k);
  }

  /** A column only in the baseline yields exactly one REMOVED_COL and nothing else. */
  lemma ColumnOnlyInBaseline(cur: seq<Column>, base: seq<Column>, k: Key)
    requires k !in IndexSchema(cur) && k in IndexSchema(base)
    ensures RecordsFor(SchemaDiffOf(cur, base), k) == [RemovedCol(k.0, k.1)]
  {
    SchemaDiffRecordsFor(cur, base, k);
  }

  /** A column on both sides yields one CHANGED_FIELD per differing tracked
      field, in `FIELDS` order, old value from the baseline and new from the
      current descriptor, and no other record. */
  lemma ColumnOnBothSides(cur: seq<Column>, base: seq<Column>, k: Key)
    requires k in IndexSchema(cur) && k in IndexSchema(base)
    ensures var d := RecordsFor(SchemaDiffOf(cur, base), k);
      var b := IndexSchema(base)[k];
      var c := IndexSchema(cur)[k];
      && (forall i :: 0 <= i < |d| ==> ReportsChange(d[i], k.0, k.1, b, c))
      && (forall i, j :: 0 <= i < j < |d| ==> Rank(d[i].field) < Rank(d[j].field))
      && (forall f :: FieldValue(b, f) != FieldValue(c, f) ==>
            ChangedField(k.0, k.1, f, PyStr(FieldValue(b, f)), PyStr(FieldValue(c, f))) in d)
  {
    var ic := IndexSchema(cur);
    var ib := IndexSchema(base);
    SchemaDiffRecordsFor(cur, base, k);
    assert KeyRecords(k, ic, ib) == FieldChanges(k.0, k.1, ib[k], ic[k], |Tracked|);
    FieldChangesExact(k.0, k.1, ib[k], ic[k], |Tracked|);
  }

  // ---------------------------------------------------------------------------
  // Self-diff

  lemma {:induction false} FieldChangesSelf(t: string, col: string, b: Column, n: nat)
    requires n <= |Tracked|
    ensures FieldChanges(t, col, b, b, n) == []
  {
    if n > 0 {
      FieldChangesSelf(t, col, b, n - 1);
    }
  }

  lemma {:induction false} ColumnRecordsSelf(ks: seq<Key>, ic: map<Key, Column>)
    ensures ColumnRecords(ks, ic, ic) == []
  {
    if ks != [] {
      ColumnRecordsSelf(ks[..|ks| - 1], ic);
      var k := ks[|ks| - 1];
      if k in ic {
        FieldChangesSelf(k.0, k.1, ic[k], |Tracked|);
      }
    }
  }

  /** Diffing a snapshot against itself reports nothing. */
  lemma SchemaDiffSelf(x: seq<Column>)
    ensures SchemaDiffOf(x, x) == []
  {
    var ic := IndexSchema(x);
    ColumnRecordsSelf(SortedKeys(ic.Keys + ic.Keys), ic);
  }

  // ---------------------------------------------------------------------------
  // Symmetry

  lemma SwapAllAppend(x: seq<SchemaChange>, y: seq<SchemaChange>)
    ensures SwapAll(x + y) == SwapAll(x) + SwapAll(y)
  {
  }

  lemma {:induction false} FieldChangesSwap(t: string, col: string, b: Column, c: Column, n: nat)
    requires n <= |Tracked|
    ensures FieldChanges(t, col, c, b, n) == SwapAll(FieldChanges(t, col, b, c, n))
  {
    if n > 0 {
      var f := Tracked[n - 1];
      FieldChangesSwap(t, col, b, c, n - 1);
      var front := FieldChanges(t, col, b, c, n - 1);
      var tail := FieldRecord(t, col, b, c, f);
      assert FieldRecord(t, col, c, b, f) == SwapAll(tail);
      SwapAllAppend(front, tail);
    }
  }

  lemma {:induction false} ColumnRecordsSwap(ks: seq<Key>, ic: map<Key, Column>, ib: map<Key, Column>)
    ensures ColumnRecords(ks, ib, ic) == SwapAll(ColumnRecords(ks, ic, ib))
  {
    if ks != [] {
      var n := |ks| - 1;
      ColumnRecordsSwap(ks[..n], ic, ib);
      var k := ks[n];
      if k in ic && k in ib {
        FieldChangesSwap(k.0, k.1, ib[k], ic[k], |Tracked|);
      }
      SwapAllAppend(ColumnRecords(ks[..n], ic, ib), KeyRecords(k, ic, ib));
    }
  }

  lemma SwapTables(ts: seq<string>)
    ensures SwapAll(AddedTables(ts)) == RemovedTables(ts)
    ensures SwapAll(RemovedTables(ts)) == AddedTables(ts)
  {
  }

  /** Swapping the snapshots swaps added with removed and old with new values:
      the column records correspond one to one, in the same order, and the
      whole output is the same multiset. */
  lemma SchemaDiffSymmetric(a: seq<Column>, b: seq<Column>)
    ensures multiset(SwapAll(SchemaDiffOf(a, b))) == multiset(SchemaDiffOf(b, a))
  {
    var ia := IndexSchema(a);
    var ib := IndexSchema(b);
    var ab := SortedStrings(Tables(a) - Tables(b));
    var ba := SortedStrings(Tables(b) - Tables(a));
    var ks := SortedKeys(ia.Keys + ib.Keys);
    assert ib.Keys + ia.Keys == ia.Keys + ib.Keys;
    ColumnRecordsSwap(ks, ia, ib);
    var cols := ColumnRecords(ks, ia, ib);
    assert SchemaDiffOf(a, b) == AddedTables(ab) + RemovedTables(ba) + cols;
    assert SchemaDiffOf(b, a) == AddedTables(ba) + RemovedTables(ab) + SwapAll(cols);
    SwapAllAppend(AddedTables(ab) + RemovedTables(ba), cols);
    SwapAllAppend(AddedTables(ab), RemovedTables(ba));
    SwapTables(ab);
    SwapTables(ba);
    assert SwapAll(SchemaDiffOf(a, b)) == RemovedTables(ab) + AddedTables(ba) + SwapAll(cols);
    MultisetExchange(RemovedTables(ab), AddedTables(ba), SwapAll(cols));
  }

  /** Exchanging the first two parts of a sequence keeps its multiset. */
  lemma MultisetExchange(x: seq<SchemaChange>, y: seq<SchemaChange>, z: seq<SchemaChange>)
    ensures multiset(x + y + z) == multiset(y + x + z)
  {
    calc {
      multiset(x + y + z);
      multiset(x) + multiset(y) + multiset(z);
      multiset(y + x + z);
    }
  }

  // ---------------------------------------------------------------------------
  // Ordering

  /** 0 for ADDED_TABLE, 1 for REMOVED_TABLE, 2 for column records. */
  function Block(r: SchemaChange): nat {
    if r.AddedTable? then 0 else if r.RemovedTable? then 1 else 2
  }

  /** All ADDED_TABLE records (by table id), then all REMOVED_TABLE records (by
      table id), then the column records by ascending (tableId, colId). */
  ghost predicate Ordered(d: seq<SchemaChange>) {
    forall i, j :: 0 <= i < j < |d| ==>
      && Block(d[i]) <= Block(d[j])
      && (Block(d[i]) == Block(d[j]) < 2 ==> StrLt(d[i].tableId, d[j].tableId))
      && (Block(d[i]) == Block(d[j]) == 2 ==> !KeyLt(d[j].ColKey(), d[i].ColKey()))
  }

  lemma {:induction false} ColumnRecordsKeys(ks: seq<Key>, ic: map<Key, Column>, ib: map<Key, Column>)
    ensures forall r :: r in ColumnRecords(ks, ic, ib) ==> r.IsColumnRecord() && r.ColKey() in ks
  {
    if ks != [] {
      ColumnRecordsKeys(ks[..|ks| - 1], ic, ib);
    }
  }

  /** Column records for keys below `k`, followed by records for `k`, stay ordered. */
  lemma OrderedColumnsAppend(front: seq<SchemaChange>, last: seq<SchemaChange>, prev: seq<Key>, k: Key)
    requires Ordered(front)
    requires forall r :: r in front ==> r.IsColumnRecord() && r.ColKey() in prev
    requires AllAbout(last, k)
    requires forall p :: p in prev ==> KeyLt(p, k)
    ensures Ordered(front + last)
  {
    var d := front + last;
    forall i, j | 0 <= i < j < |d|
      ensures !KeyLt(d[j].ColKey(), d[i].ColKey())
    {
      if j < |front| {
        assert d[i] == front[i] && d[j] == front[j];
      } else if i >= |front| {
        assert d[i] in last && d[j] in last;
        StrLtIrreflexive(k.0);
        StrLtIrreflexive(k.1);
      } else {
        assert d[i] in front && d[j] in last;
        KeyLtAsymmetric(d[i].ColKey(), k);
      }
    }
  }

  lemma {:induction false} ColumnRecordsOrdered(ks: seq<Key>, ic: map<Key, Column>, ib: map<Key, Column>)
    requires Increasing(ks, KeyLt)
    ensures Ordered(ColumnRecords(ks, ic, ib))
  {
    if ks != [] {
      var n := |ks| - 1;
      assert Increasing(ks[..n], KeyLt);
      ColumnRecordsOrdered(ks[..n], ic, ib);
      ColumnRecordsKeys(ks[..n], ic, ib);
      forall p | p in ks[..n] ensures KeyLt(p, ks[n]) {
        var q :| 0 <= q < n && ks[q] == p;
      }
      OrderedColumnsAppend(ColumnRecords(ks[..n], ic, ib), KeyRecords(ks[n], ic, ib), ks[..n], ks[n]);
    }
  }

  lemma TablesOrdered(ts: seq<string>)
    requires Increasing(ts, StrLt)
    ensures Ordered(AddedTables(ts)) && Ordered(RemovedTables(ts))
  {
  }

  lemma OrderedAppend(x: seq<SchemaChange>, y: seq<SchemaChange>)
    requires Ordered(x) && Ordered(y)
    requires forall i, j :: 0 <= i < |x| && 0 <= j < |y| ==> Block(x[i]) < Block(y[j])
    ensures Ordered(x + y)
  {
    var d := x + y;
    forall i, j | 0 <= i < j < |d|
      ensures Block(d[i]) <= Block(d[j])
      ensures Block(d[i]) == Block(d[j]) < 2 ==> StrLt(d[i].tableId, d[j].tableId)
      ensures Block(d[i]) == Block(d[j]) == 2 ==> !KeyLt(d[j].ColKey(), d[i].ColKey())
    {
      if j < |x| {
        assert d[i] == x[i] && d[j] == x[j];
      } else if i >= |x| {
        assert d[i] == y[i - |x|] && d[j] == y[j - |x|];
      } else {
        assert d[i] == x[i] && d[j] == y[j - |x|];
      }
    }
  }

  lemma TablesThenColumnsOrdered(a: seq<string>, r: seq<string>, cols: seq<SchemaChange>)
    requires Increasing(a, StrLt) && Increasing(r, StrLt) && Ordered(cols)
    requires forall x :: x in cols ==> x.IsColumnRecord()
    ensures Ordered(AddedTables(a) + RemovedTables(r) + cols)
  {
    TablesOrdered(a);
    TablesOrdered(r);
    OrderedAppend(AddedTables(a), RemovedTables(r));
    var tablesPart := AddedTables(a) + RemovedTables(r);
    forall i, j | 0 <= i < |tablesPart| && 0 <= j < |cols| ensures Block(tablesPart[i]) < Block(cols[j]) {
      assert cols[j] in cols;
    }
    OrderedAppend(tablesPart, cols);
  }

  /** `make_schema_diff`'s output order. */
  lemma SchemaDiffOrdered(cur: seq<Column>, base: seq<Column>)
    ensures Ordered(SchemaDiffOf(cur, base))
  {
    var ic := IndexSchema(cur);
    var ib := IndexSchema(base);
    var ks := SortedKeys(ic.Keys + ib.Keys);
    ColumnRecordsOrdered(ks, ic, ib);
    ColumnRecordsKeys(ks, ic, ib);
    TablesThenColumnsOrdered(SortedStrings(Tables(cur) - Tables(base)), SortedStrings(Tables(base) - Tables(cur)), ColumnRecords(ks, ic, ib));
  }
}
