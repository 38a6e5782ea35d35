/** The column-descriptor snapshot: parsing reference types (`ref_target`) and
    projecting the columns the document API lists for each table into
    descriptors (`scan_schema`). The API calls themselves are not modelled:
    the tables arrive with their columns already fetched. */
module SchemaScan {
  import opened Values

  /** The characters of the regex class `[\w.$-]`, for ASCII input. */
  predicate IsTargetChar(c: char) {
    ('a' <= c <= 'z') || ('A' <= c <= 'Z') || ('0' <= c <= '9') || c == '_' || c == '.' || c == '$' || c == '-'
  }

  /** A non-empty run of `[\w.$-]`. */
  predicate IsTargetRun(x: string) {
    |x| > 0 && forall k :: 0 <= k < |x| ==> IsTargetChar(x[k])
  }

  /** The capture group of `([\w.$-]+)$` applied to what follows the prefix:
      Python's `$` also matches just before a final newline. */
  function TargetTail(s: string): (r: string)
    ensures r != "" ==> IsTargetRun(r) && (s == r || s == r + "\n")
    ensures IsTargetRun(s) ==> r == s
    ensures |s| > 0 && s[|s| - 1] == '\n' && IsTargetRun(s[..|s| - 1]) ==> r == s[..|s| - 1]
  {
    if IsTargetRun(s) then s
    else if |s| >= 2 && s[|s| - 1] == '\n' && IsTargetRun(s[..|s| - 1]) then s[..|s| - 1]
    else ""
  }

  /** `ref_target(t)`: the table a `Ref:X` or `RefList:X` column type points
      at, or "" for every other type (and for a type that is not a string). */
  function RefTarget(t: Value): (r: string)
    ensures r != "" ==>
      && IsTargetRun(r)
      && t.Str?
      && (t.s == "Ref:" + r || t.s == "Ref:" + r + "\n" || t.s == "RefList:" + r || t.s == "RefList:" + r + "\n")
  {
    if !t.Str? then ""
    else if |t.s| >= 8 && t.s[..8] == "RefList:" then
      TailAfter(t.s, "RefList:");
      TargetTail(t.s[8..])
    else if |t.s| >= 4 && t.s[..4] == "Ref:" then
      TailAfter(t.s, "Ref:");
      TargetTail(t.s[4..])
    else ""
  }

  /** What follows a prefix, once captured, rebuilds the whole text. */
  lemma TailAfter(s: string, prefix: string)
    requires |prefix| <= |s| && s[..|prefix|] == prefix
    ensures var r := TargetTail(s[|prefix|..]); r != "" ==> s == prefix + r || s == prefix + r + "\n"
  {
    var tail := s[|prefix|..];
    assert s == prefix + tail;
    var r := TargetTail(tail);
    if r != "" && tail != r {
      assert prefix + (r + "\n") == prefix + r + "\n";
    }
  }

  /** The converse of RefTarget's contract: every reference type yields exactly its target. */
  lemma RefTargetOfReference(prefix: string, x: string, newline: string)
    requires prefix == "Ref:" || prefix == "RefList:"
    requires IsTargetRun(x)
    requires newline == "" || newline == "\n"
    ensures RefTarget(Str(prefix + x + newline)) == x
  {
    var s := prefix + x + newline;
    if newline == "\n" {
      assert (x + newline)[|x|] == '\n';
      assert !IsTargetRun(x + newline);
    }
    if prefix == "RefList:" {
      assert s[..8] == prefix && s[8..] == x + newline;
      if newline == "\n" { assert (x + newline)[..|x + newline| - 1] == x; } else { assert x + newline == x; }
    } else {
      assert s[..4] == prefix && s[4..] == x + newline;
      if newline == "\n" { assert (x + newline)[..|x + newline| - 1] == x; } else { assert x + newline == x; }
      assert s[3] == ':';
      assert |s| >= 8 ==> s[..8][3] == ':' && s[..8] != "RefList:";
    }
  }

  /** A column as `list_columns` returns it: its id (`c.get("id","")`) and its
      `fields` mapping (absent or null fields read as an empty mapping). */
  datatype RawColumn = RawColumn(id: string, fields: Fields)

  /** A table as `list_tables` returns it, with the columns listed for it. */
  datatype RawTable = RawTable(id: string, columns: seq<RawColumn>)

  /** One stored column descriptor. Identity is (tableId, colId). */
  datatype Column = Column(
    tableId: string,
    colId: string,
    displayLabel: Value,
    typ: Value,
    isFormula: bool,
    formula: Value,
    isRef: bool,
    refTableId: string,
    visibleCol: Value,
    description: Value,
    pos: nat)

  /** The descriptor as the JSON object `scan_schema` appends and the snapshot
      file stores. */
  function AsRecord(c: Column): Fields {
    map[
      "tableId" := Str(c.tableId), "colId" := Str(c.colId), "label" := c.displayLabel,
      "type" := c.typ, "isFormula" := Bool(c.isFormula), "formula" := c.formula,
      "isRef" := Bool(c.isRef), "refTableId" := Str(c.refTableId),
      "visibleCol" := c.visibleCol, "description" := c.description, "pos" := Int(c.pos)]
  }

  const MaxText := 240

  /** `(v or "")[:240]`: a falsy value becomes "", strings and lists keep their
      first 240 elements, and any other truthy value makes Python raise a
      TypeError (None here). */
  function Truncate(v: Value): (r: Option<Value>)
    ensures !Truthy(v) ==> r == Some(Str(""))
    ensures r.Some? && v.Str? && Truthy(v) ==> r.value.Str? && |r.value.s| <= MaxText && r.value.s <= v.s
    ensures r.Some? && v.List? && Truthy(v) ==> r.value.List? && |r.value.items| <= MaxText && r.value.items <= v.items
    ensures r.Some? && v.Str? ==> |r.value.s| == (if |v.s| < MaxText then |v.s| else MaxText)
    ensures r.Some? && v.List? && Truthy(v) ==> |r.value.items| == (if |v.items| < MaxText then |v.items| else MaxText)
    ensures r.None? <==> Truthy(v) && !v.Str? && !v.List?
  {
    if !Truthy(v) then Some(Str(""))
    else match v
      case Str(s) => Some(Str(if |s| <= MaxText then s else s[..MaxText]))
      case List(xs) => Some(List(if |xs| <= MaxText then xs else xs[..MaxText]))
      case _ => None
  }

  /** The descriptor `col` is what `scan_schema` builds for column `c` of
      table `tid` at position `pos`. */
  ghost predicate Describes(col: Column, tid: string, c: RawColumn, pos: nat) {
    && col.tableId == tid && col.colId == c.id && col.pos == pos
    && col.typ == Get(c.fields, "type", Str(""))
    && (col.isRef <==> col.refTableId != "")
    && col.refTableId == RefTarget(col.typ)
    && (col.isFormula <==> Truthy(Get(c.fields, "isFormula", Null)) || Truthy(Get(c.fields, "formula", Null)))
    && Truncate(Get(c.fields, "formula", Null)) == Some(col.formula)
    && Truncate(Get(c.fields, "description", Null)) == Some(col.description)
    && col.displayLabel == Get(c.fields, "label", Str(""))
    && col.visibleCol == Get(c.fields, "visibleCol", Null)
  }

  /** The descriptor `scan_schema` appends for column `c` of table `tid` at
      position `pos`, or None when building it raises. */
  function Project(tid: string, c: RawColumn, pos: nat): (r: Option<Column>)
    ensures r.None? <==> Truncate(Get(c.fields, "formula", Null)).None? || Truncate(Get(c.fields, "description", Null)).None?
    ensures r.Some? ==> Describes(r.value, tid, c, pos)
  {
    var f := c.fields;
    var typ := Get(f, "type", Str(""));
    var tgt := RefTarget(typ);
    var formula := Truncate(Get(f, "formula", Null));
    var description := Truncate(Get(f, "description", Null));
    if formula.None? || description.None? then None
    else Some(Column(
      tableId := tid,
      colId := c.id,
      displayLabel := Get(f, "label", Str("")),
      typ := typ,
      isFormula := Truthy(Get(f, "isFormula", Null)) || Truthy(Get(f, "formula", Null)),
      formula := formula.value,
      isRef := tgt != "",
      refTableId := tgt,
      visibleCol := Get(f, "visibleCol", Null),
      description := description.value,
      pos := pos))
  }

  /** The descriptors of one table's columns, numbered from 0 in listing order. */
  function ProjectColumns(tid: string, cols: seq<RawColumn>): (r: Option<seq<Column>>)
    ensures r.None? <==> exists j :: 0 <= j < |cols| && Project(tid, cols[j], j).None?
    ensures r.Some? ==> |r.value| == |cols| && forall j :: 0 <= j < |cols| ==> Project(tid, cols[j], j) == Some(r.value[j])
  {
    if cols == [] then Some([])
    else
      var n := |cols| - 1;
      var front := ProjectColumns(tid, cols[..n]);
      var last := Project(tid, cols[n], n);
      assert forall j :: 0 <= j < n ==> cols[..n][j] == cols[j];
      if front.None? || last.None? then None else Some(front.value + [last.value])
  }

  function TotalColumns(tables: seq<RawTable>): nat {
    if tables == [] then 0 else TotalColumns(tables[..|tables| - 1]) + |tables[|tables| - 1].columns|
  }

  /** The whole snapshot: each table's descriptors in turn, or None when any column raises. */
  function ScanSpec(tables: seq<RawTable>): (r: Option<seq<Column>>)
    ensures r.None? <==> exists i :: 0 <= i < |tables| && ProjectColumns(tables[i].id, tables[i].columns).None?
    ensures r.Some? ==> |r.value| == TotalColumns(tables)
  {
    if tables == [] then Some([])
    else
      var n := |tables| - 1;
      var front := ScanSpec(tables[..n]);
      var last := ProjectColumns(tables[n].id, tables[n].columns);
      assert forall i :: 0 <= i < n ==> tables[..n][i] == tables[i];
      if front.None? || last.None? then None else Some(front.value + last.value)
  }

  /** Every descriptor of a successful scan satisfies the per-column rules. */
  lemma {:induction false} ScanRows(tables: seq<RawTable>, k: int)
    requires ScanSpec(tables).Some? && 0 <= k < |ScanSpec(tables).value|
    ensures var c := ScanSpec(tables).value[k];
      && (c.isRef <==> c.refTableId != "")
      && c.refTableId == RefTarget(c.typ)
      && (exists i, j :: 0 <= i < |tables| && 0 <= j < |tables[i].columns| &&
            Project(tables[i].id, tables[i].columns[j], j) == Some(c))
  {
    var n := |tables| - 1;
    var front := ScanSpec(tables[..n]).value;
    var last := ProjectColumns(tables[n].id, tables[n].columns).value;
    assert ScanSpec(tables).value == front + last;
    if k < |front| {
      ScanRows(tables[..n], k);
      var c := front[k];
      var i, j :| 0 <= i < n && 0 <= j < |tables[..n][i].columns| && Project(tables[..n][i].id, tables[..n][i].columns[j], j) == Some(c);
      assert tables[..n][i] == tables[i];
    } else {
      var j := k - |front|;
      assert Project(tables[n].id, tables[n].columns[j], j) == Some(last[j]);
    }
  }

  /** Where each column lands: the descriptor of column `j` of table `i` is
      entry `TotalColumns(tables[..i]) + j` of a successful scan. */
  lemma ScanIndex(tables: seq<RawTable>, i: int, j: int)
    requires ScanSpec(tables).Some?
    requires 0 <= i < |tables| && 0 <= j < |tables[i].columns|
    ensures TotalColumns(tables[..i]) + j < |ScanSpec(tables).value|
    ensures Project(tables[i].id, tables[i].columns[j], j) == Some(ScanSpec(tables).value[TotalColumns(tables[..i]) + j])
  {
    var pre := tables[..i + 1];
    ScanPrefix(tables, i + 1);
    assert pre[i] == tables[i] && pre[..i] == tables[..i];
    LastTableLands(pre, i, j);
    var p := TotalColumns(tables[..i]) + j;
    assert ScanSpec(tables).value[p] == ScanSpec(pre).value[p];
  }

  /** The scan of the first `m` tables is the start of the whole scan. */
  lemma {:induction false} ScanPrefix(tables: seq<RawTable>, m: int)
    requires ScanSpec(tables).Some? && 0 <= m <= |tables|
    ensures ScanSpec(tables[..m]).Some?
    ensures TotalColumns(tables[..m]) <= |ScanSpec(tables).value|
    ensures ScanSpec(tables[..m]).value == ScanSpec(tables).value[..TotalColumns(tables[..m])]
  {
    if m == |tables| {
      assert tables[..m] == tables;
    } else {
      var n := |tables| - 1;
      assert ScanSpec(tables).value == ScanSpec(tables[..n]).value + ProjectColumns(tables[n].id, tables[n].columns).value;
      ScanPrefix(tables[..n], m);
      assert tables[..n][..m] == tables[..m];
    }
  }

  /** TableLands for the last table. */
  lemma LastTableLands(tables: seq<RawTable>, i: int, j: int)
    requires ScanSpec(tables).Some?
    requires i == |tables| - 1 && 0 <= i && 0 <= j < |tables[i].columns|
    ensures ProjectColumns(tables[i].id, tables[i].columns).Some?
    ensures TotalColumns(tables[..i]) + j < |ScanSpec(tables).value|
    ensures ScanSpec(tables).value[TotalColumns(tables[..i]) + j] == ProjectColumns(tables[i].id, tables[i].columns).value[j]
  {
    var front := ScanSpec(tables[..i]).value;
    var last := ProjectColumns(tables[i].id, tables[i].columns).value;
    assert ScanSpec(tables).value == front + last;
    assert |front| == TotalColumns(tables[..i]);
    assert (front + last)[|front| + j] == last[j];
  }

  /** `scan_schema`: walk the tables and their columns, numbering each table's
      columns from 0; a column whose formula or description cannot be sliced
      aborts the scan. */
  method ScanSchema(tables: seq<RawTable>) returns (r: Option<seq<Column>>)
    ensures r == ScanSpec(tables)
  {
    var rows: seq<Column> := [];
    for i := 0 to |tables|
      invariant ScanSpec(tables[..i]) == Some(rows)
    {
      var t := tables[i];
      var tableRows: seq<Column> := [];
      var pos := 0;
      while pos < |t.columns|
        invariant pos <= |t.columns|
        invariant ProjectColumns(t.id, t.columns[..pos]) == Some(tableRows)
      {
        var c := Project(t.id, t.columns[pos], pos);
        if c.None? {
          assert ProjectColumns(t.id, t.columns).None?;
          assert ScanSpec(tables).None?;
          return None;
        }
        assert t.columns[..pos + 1][..pos] == t.columns[..pos];
        tableRows := tableRows + [c.value];
        pos := pos + 1;
      }
      assert t.columns[..pos] == t.columns;
      assert tables[..i + 1][..i] == tables[..i];
      rows := rows + tableRows;
    }
    assert tables[..|tables|] == tables;
    r := Some(rows);
  }
}
