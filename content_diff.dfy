/** `make_equip_diff`: compare the current and the stored rows of the equipment
    table by row id and classify each id as added, removed or changed. */
module ContentDiff {
  import opened Values

  /** A record of the content table: its id and its `fields` mapping (a record
      without `fields` reads as an empty mapping). */
  datatype Row = Row(id: int, fields: Fields)

  datatype ChangeType = AddedRow | RemovedRow | ChangedRow

  /** One content change record: `{"changeType": ..., "id": ...}`. */
  datatype ContentChange = ContentChange(changeType: ChangeType, id: int)

  /** The row ids a snapshot contains. */
  function Ids(rows: seq<Row>): set<int> {
    set r | r in rows :: r.id
  }

  /** `{r["id"]: r.get("fields", {}) for r in rows}`: a later duplicate id replaces an earlier one. */
  function Index(rows: seq<Row>): (m: map<int, Fields>)
    ensures m.Keys == Ids(rows)
  {
    if rows == [] then map[]
    else
      var n := |rows| - 1;
      assert rows == rows[..n] + [rows[n]];
      assert Ids(rows) == Ids(rows[..n]) + {rows[n].id};
      Index(rows[..n])[rows[n].id := rows[n].fields]
  }

  /** The last row with a given id is the one whose fields are compared. */
  lemma {:induction false} IndexLastWins(rows: seq<Row>, i: int)
    requires 0 <= i < |rows|
    requires forall j :: i < j < |rows| ==> rows[j].id != rows[i].id
    ensures Index(rows)[rows[i].id] == rows[i].fields
  {
    var n := |rows| - 1;
    if i < n {
      IndexLastWins(rows[..n], i);
    }
  }

  /** The record, if any, that id `rid` receives. */
  function Classify(ci: map<int, Fields>, bi: map<int, Fields>, rid: int): (r: Option<ChangeType>)
    ensures r == Some(AddedRow) <==> rid in ci && rid !in bi
    ensures r == Some(RemovedRow) <==> rid in bi && rid !in ci
    ensures r == Some(ChangedRow) <==> rid in ci && rid in bi && ci[rid] != bi[rid]
  {
    if rid in ci && rid !in bi then Some(AddedRow)
    else if rid in bi && rid !in ci then Some(RemovedRow)
    else if rid in ci && rid in bi && ci[rid] != bi[rid] then Some(ChangedRow)
    else None
  }

  /** The records `make_equip_diff(cur, base)` emits, as a set: the source
      iterates a Python set, so their order is unspecified. */
  ghost function EquipDiffOf(cur: seq<Row>, base: seq<Row>): set<ContentChange> {
    var ci := Index(cur);
    var bi := Index(base);
    set rid | rid in ci.Keys + bi.Keys && Classify(ci, bi, rid).Some? :: ContentChange(Classify(ci, bi, rid).value, rid)
  }

  /** Membership in the spec, one id at a time. */
  lemma EquipDiffMember(cur: seq<Row>, base: seq<Row>, d: ContentChange)
    ensures d in EquipDiffOf(cur, base) <==>
      d.id in Index(cur).Keys + Index(base).Keys && Classify(Index(cur), Index(base), d.id) == Some(d.changeType)
  {
    var ci := Index(cur);
    var bi := Index(base);
    if d.id in ci.Keys + bi.Keys && Classify(ci, bi, d.id) == Some(d.changeType) {
      assert d == ContentChange(Classify(ci, bi, d.id).value, d.id);
    }
  }

  /** No two records share an id. */
  predicate DistinctIds(r: seq<ContentChange>) {
    forall i, j :: 0 <= i < j < |r| ==> r[i].id != r[j].id
  }

  /** The records the loop has emitted after visiting the ids `seen`, in that order. */
  function RecordsOf(ci: map<int, Fields>, bi: map<int, Fields>, seen: seq<int>): seq<ContentChange> {
    if seen == [] then []
    else
      var n := |seen| - 1;
      var c := Classify(ci, bi, seen[n]);
      RecordsOf(ci, bi, seen[..n]) + (if c.Some? then [ContentChange(c.value, seen[n])] else [])
  }

  /** A record is emitted exactly for a visited id that Classify assigns one,
      and ids visited once give records with distinct ids. */
  lemma {:induction false} RecordsOfExact(ci: map<int, Fields>, bi: map<int, Fields>, seen: seq<int>)
    requires Distinct(seen)
    ensures forall d :: d in RecordsOf(ci, bi, seen) <==> d.id in seen && Classify(ci, bi, d.id) == Some(d.changeType)
    ensures DistinctIds(RecordsOf(ci, bi, seen))
  {
    if seen != [] {
      var n := |seen| - 1;
      var front := RecordsOf(ci, bi, seen[..n]);
      RecordsOfExact(ci, bi, seen[..n]);
      var c := Classify(ci, bi, seen[n]);
      var tail := if c.Some? then [ContentChange(c.value, seen[n])] else [];
      var r := front + tail;
      assert RecordsOf(ci, bi, seen) == r;
      assert seen == seen[..n] + [seen[n]];
      assert seen[n] !in seen[..n];
      forall i, j | 0 <= i < j < |r| ensures r[i].id != r[j].id {
        if j >= |front| {
          assert r[i] == front[i] && r[i] in front && r[i].id in seen[..n];
          assert tail != [] && r[j] == tail[0] && tail[0].id == seen[n];
        } else {
          assert r[i] == front[i] && r[j] == front[j];
          assert DistinctIds(front);
        }
      }
    }
  }

  /** The body of the loop: the record, if any, for one id. */
  method RecordFor(ci: map<int, Fields>, bi: map<int, Fields>, rid: int) returns (rec: seq<ContentChange>)
    requires rid in ci || rid in bi
    ensures rec == (if Classify(ci, bi, rid).Some? then [ContentChange(Classify(ci, bi, rid).value, rid)] else [])
  {
    if rid in ci && rid !in bi {
      rec := [ContentChange(AddedRow, rid)];
    } else if rid in bi && rid !in ci {
      rec := [ContentChange(RemovedRow, rid)];
    } else if ci[rid] != bi[rid] {
      rec := [ContentChange(ChangedRow, rid)];
    } else {
      rec := [];
    }
  }

  /** The ids of `ids` that are no longer in `rest` are exactly those of `seen`. */
  ghost predicate Visited(ids: set<int>, rest: set<int>, seen: seq<int>) {
    rest <= ids && Distinct(seen) &&
    (forall x :: x in seen ==> x in ids && x !in rest) &&
    (forall x :: x in ids && x !in rest ==> x in seen)
  }

  /** Visiting one more id of `rest` keeps `Visited`. */
  lemma VisitOne(ids: set<int>, rest: set<int>, seen: seq<int>, rid: int)
    requires Visited(ids, rest, seen) && rid in rest
    ensures Visited(ids, rest - {rid}, seen + [rid])
  {
    var s := seen + [rid];
    forall i, j | 0 <= i < j < |s| ensures s[i] != s[j] {
      if j == |seen| {
        assert s[i] == seen[i] && seen[i] in seen;
      } else {
        assert s[i] == seen[i] && s[j] == seen[j];
      }
    }
  }

  /** A set that is not empty has a member to visit next. */
  lemma NonEmptyHasMember(s: set<int>)
    requires s != {}
    ensures exists x :: x in s
  {
    if forall x :: x !in s {
      assert false;
    }
  }

  /** Visiting one more id appends its record, if any. */
  lemma RecordsOfStep(ci: map<int, Fields>, bi: map<int, Fields>, seen: seq<int>, rid: int)
    ensures RecordsOf(ci, bi, seen + [rid]) ==
      RecordsOf(ci, bi, seen) + (if Classify(ci, bi, rid).Some? then [ContentChange(Classify(ci, bi, rid).value, rid)] else [])
  {
    assert (seen + [rid])[..|seen|] == seen;
  }

  /** The loop of `make_equip_diff`: one record per id of `ids` that
      Classify assigns one, visiting the ids in an arbitrary order. */
  method ClassifyIds(ci: map<int, Fields>, bi: map<int, Fields>, ids: set<int>) returns (out: seq<ContentChange>)
    requires ids == ci.Keys + bi.Keys
    ensures forall d :: d in out <==> d.id in ids && Classify(ci, bi, d.id) == Some(d.changeType)
    ensures forall i, j :: 0 <= i < j < |out| ==> out[i].id != out[j].id
  {
    out := [];
    var rest := ids;
    ghost var seen: seq<int> := [];
    while rest != {}
      invariant Visited(ids, rest, seen)
      invariant out == RecordsOf(ci, bi, seen)
      decreases |rest|
    {
      NonEmptyHasMember(rest);
      var rid :| rid in rest;
      var rec := RecordFor(ci, bi, rid);
      RecordsOfStep(ci, bi, seen, rid);
      VisitOne(ids, rest, seen, rid);
      out := out + rec;
      seen := seen + [rid];
      rest := rest - {rid};
    }
    RecordsOfExact(ci, bi, seen);
  }

  /** `make_equip_diff(cur, base)`: index both sides, then classify the union of their ids. */
  method MakeEquipDiff(cur: seq<Row>, base: seq<Row>) returns (out: seq<ContentChange>)
    ensures forall d :: d in out <==> d in EquipDiffOf(cur, base)
    ensures forall i, j :: 0 <= i < j < |out| ==> out[i].id != out[j].id
  {
    var ci := Index(cur);
    var bi := Index(base);
    out := ClassifyIds(ci, bi, ci.Keys + bi.Keys);
    forall d ensures d in out <==> d in EquipDiffOf(cur, base) {
      EquipDiffMember(cur, base, d);
    }
  }

  /** The spec's records carry each id at most once. */
  lemma EquipDiffOneRecordPerId(cur: seq<Row>, base: seq<Row>, d1: ContentChange, d2: ContentChange)
    requires d1 in EquipDiffOf(cur, base) && d2 in EquipDiffOf(cur, base) && d1.id == d2.id
    ensures d1 == d2
  {
  }

  /** ADDED_ROW exactly for ids only in the current rows, REMOVED_ROW exactly for
      ids only in the baseline, CHANGED_ROW exactly for ids on both sides whose
      (last) fields differ. */
  lemma EquipDiffClassification(cur: seq<Row>, base: seq<Row>, rid: int)
    ensures ContentChange(AddedRow, rid) in EquipDiffOf(cur, base) <==> rid in Ids(cur) && rid !in Ids(base)
    ensures ContentChange(RemovedRow, rid) in EquipDiffOf(cur, base) <==> rid in Ids(base) && rid !in Ids(cur)
    ensures ContentChange(ChangedRow, rid) in EquipDiffOf(cur, base) <==>
      rid in Ids(cur) && rid in Ids(base) && Index(cur)[rid] != Index(base)[rid]
  {
    var ci := Index(cur);
    var bi := Index(base);
    if rid in ci.Keys + bi.Keys {
      assert Classify(ci, bi, rid).Some? ==> ContentChange(Classify(ci, bi, rid).value, rid) in EquipDiffOf(cur, base);
    }
  }

  /** Comparing a snapshot with itself finds no change. */
  lemma EquipDiffSelf(x: seq<Row>)
    ensures EquipDiffOf(x, x) == {}
  {
    forall d ensures d !in EquipDiffOf(x, x) {
      EquipDiffMember(x, x, d);
    }
  }

  /** A row appended to the current rows with an id unknown to both sides is reported as added. */
  lemma ScenarioOneRowAdded()
    ensures EquipDiffOf([Row(1, map["name" := Str("A")]), Row(2, map["name" := Str("B")])],
                        [Row(1, map["name" := Str("A")])])
         == {ContentChange(AddedRow, 2)}
  {
    var cur := [Row(1, map["name" := Str("A")]), Row(2, map["name" := Str("B")])];
    var base := [Row(1, map["name" := Str("A")])];
    assert Index(cur) == map[1 := map["name" := Str("A")], 2 := map["name" := Str("B")]];
    assert Index(base) == map[1 := map["name" := Str("A")]];
    assert Index(cur).Keys + Index(base).Keys == {1, 2};
  }

  /** A row whose stored fields were empty and now hold a value is reported
      as changed: the differ does not reclassify an empty baseline as added. */
  lemma ScenarioEmptyBaselineIsChanged()
    ensures EquipDiffOf([Row(1, map["name" := Str("X")])], [Row(1, map[])])
         == {ContentChange(ChangedRow, 1)}
  {
    var cur := [Row(1, map["name" := Str("X")])];
    var base := [Row(1, map[])];
    assert Index(cur) == map[1 := map["name" := Str("X")]];
    assert Index(base) == map[1 := map[]];
    assert Index(cur)[1] != Index(base)[1] by {
      assert "name" in Index(cur)[1];
    }
    assert Index(cur).Keys + Index(base).Keys == {1};
  }

  /** A row missing from the current rows is reported as removed. */
  lemma ScenarioRowRemoved()
    ensures EquipDiffOf([], [Row(1, map["name" := Str("A")])]) == {ContentChange(RemovedRow, 1)}
  {
    var base := [Row(1, map["name" := Str("A")])];
    assert Index(base) == map[1 := map["name" := Str("A")]];
    assert Index([]).Keys + Index(base).Keys == {1};
  }
}
