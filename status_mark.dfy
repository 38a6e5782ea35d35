/** `mark_status_equip`: annotate the current rows, in place, with the kind of
    change the content diff records for their id and with the status the
    result table displays. */
module StatusMark {
  import opened Values
  import opened ContentDiff

  datatype Kind = Added | Changed | Removed | Normal

  /** The string the row carries: "added", "changed", "removed" or "normal". */
  function KindName(k: Kind): (r: string)
    ensures k == Added <==> r == "added"
    ensures k == Changed <==> r == "changed"
    ensures k == Removed <==> r == "removed"
    ensures k == Normal <==> r == "normal"
  {
    match k
    case Added => "added"
    case Changed => "changed"
    case Removed => "removed"
    case Normal => "normal"
  }

  /** A current row as the result page holds it: the row dict gains `status`
      and `kind` keys (None until annotated). */
  class EquipRow {
    const id: int
    var fields: Fields
    var status: Option<Kind>
    var kind: Option<Kind>

    constructor (id: int, fields: Fields)
      ensures this.id == id && this.fields == fields && status == None && kind == None
    {
      this.id := id;
      this.fields := fields;
      status := None;
      kind := None;
    }
  }

  function KindOf(t: ChangeType): Kind {
    match t
    case AddedRow => Added
    case ChangedRow => Changed
    case RemovedRow => Removed
  }

  /** `kind_map` after reading the whole diff: a later record for an id
      overwrites an earlier one. */
  function KindMap(diff: seq<ContentChange>): (r: map<int, Kind>)
    ensures forall id :: id in r <==> exists i :: 0 <= i < |diff| && diff[i].id == id
    ensures forall id :: id in r ==> r[id] != Normal
  {
    if diff == [] then map[]
    else
      var n := |diff| - 1;
      KindMap(diff[..n])[diff[n].id := KindOf(diff[n].changeType)]
  }

  /** `kind_map.get(id, "normal")`. */
  function KindFor(diff: seq<ContentChange>, id: int): (r: Kind)
    ensures r == Normal <==> forall i :: 0 <= i < |diff| ==> diff[i].id != id
  {
    var m := KindMap(diff);
    if id in m then m[id] else Normal
  }

  /** The displayed status: the kind, except that "removed" shows as "normal". */
  function StatusFor(k: Kind): (r: Kind)
    ensures r != Removed
    ensures k != Removed ==> r == k
    ensures k == Removed ==> r == Normal
  {
    match k
    case Added => Added
    case Changed => Changed
    case Removed => Normal
    case Normal => Normal
  }

  /** When the diff holds several records for an id, the last one decides its kind. */
  lemma {:induction false} KindForLast(diff: seq<ContentChange>, i: int)
    requires 0 <= i < |diff|
    requires forall j :: i < j < |diff| ==> diff[j].id != diff[i].id
    ensures KindFor(diff, diff[i].id) == KindOf(diff[i].changeType)
  {
    var n := |diff| - 1;
    if i < n {
      KindForLast(diff[..n], i);
    }
  }

  /** `mark_status_equip(cur, diff)`: build the kind map from the diff, then
      set `status` and `kind` on every current row; the same list is returned. */
  method MarkStatusEquip(rows: seq<EquipRow>, diff: seq<ContentChange>) returns (r: seq<EquipRow>)
    modifies set x | x in rows
    ensures r == rows
    ensures forall x :: x in rows ==>
      x.kind == Some(KindFor(diff, x.id)) && x.status == Some(StatusFor(KindFor(diff, x.id)))
    ensures forall x :: x in rows ==> x.fields == old(x.fields)
  {
    var kindMap: map<int, Kind> := map[];
    for i := 0 to |diff|
      invariant kindMap == KindMap(diff[..i])
    {
      assert diff[..i + 1][..i] == diff[..i];
      kindMap := kindMap[diff[i].id := KindOf(diff[i].changeType)];
    }
    assert diff[..|diff|] == diff;
    for i := 0 to |rows|
      invariant forall j :: 0 <= j < i ==>
        rows[j].kind == Some(KindFor(diff, rows[j].id)) && rows[j].status == Some(StatusFor(KindFor(diff, rows[j].id)))
      invariant forall x :: x in rows ==> x.fields == old(x.fields)
    {
      var k := if rows[i].id in kindMap then kindMap[rows[i].id] else Normal;
      rows[i].status := Some(StatusFor(k));
      rows[i].kind := Some(k);
    }
    r := rows;
  }

  /** Annotating with a content diff of these very rows: each row's kind is the
      classification of its id, so a current row is never "removed" and its
      status equals its kind. */
  lemma MarkedKindIsClassification(cur: seq<Row>, base: seq<Row>, diff: seq<ContentChange>, rid: int)
    requires forall d :: d in diff <==> d in EquipDiffOf(cur, base)
    requires forall i, j :: 0 <= i < j < |diff| ==> diff[i].id != diff[j].id
    requires rid in Ids(cur)
    ensures Classify(Index(cur), Index(base), rid).Some? ==>
      KindFor(diff, rid) == KindOf(Classify(Index(cur), Index(base), rid).value)
    ensures Classify(Index(cur), Index(base), rid).None? ==> KindFor(diff, rid) == Normal
    ensures KindFor(diff, rid) != Removed
    ensures StatusFor(KindFor(diff, rid)) == KindFor(diff, rid)
  {
    var c := Classify(Index(cur), Index(base), rid);
    if c.Some? {
      var d := ContentChange(c.value, rid);
      EquipDiffMember(cur, base, d);
      var i :| 0 <= i < |diff| && diff[i] == d;
      KindForLast(diff, i);
    } else {
      forall i | 0 <= i < |diff| ensures diff[i].id != rid {
        EquipDiffMember(cur, base, diff[i]);
      }
    }
  }
}
