/** The history step of an audit run: snapshot the rows the content diff
    reports as removed (with their stored fields) and as added (with their
    current fields), and append to each history the snapshots whose
    (id, canonical fields) key it does not hold yet. Reading and writing the
    history files, and the clock, are not modelled: the histories arrive as
    lists (an unreadable file reads as an empty list) and the timestamp as an
    opaque string. */
module HistoryMerge {
  import opened Values
  import opened ContentDiff

  /** A history entry: `{"id", "fields", "deletedAt"}` in the removed history,
      `{"id", "fields", "createdAt"}` in the added one. */
  datatype Snap = Snap(id: int, fields: Fields, at: string)

  /** `(id, json.dumps(fields, sort_keys=True))`: the canonical JSON text of a
      mapping is determined by its contents, so the fields themselves serve. */
  type SnapKey = (int, Fields)

  function KeyOf(s: Snap): SnapKey {
    (s.id, s.fields)
  }

  /** `existing`: the keys a history holds. */
  function Keys(hist: seq<Snap>): set<SnapKey> {
    set h | h in hist :: KeyOf(h)
  }

  /** `idx.get(rid, {})`. */
  function FieldsOr(idx: map<int, Fields>, rid: int): Fields {
    if rid in idx then idx[rid] else map[]
  }

  /** The snapshots taken for the diff records of type `t`, in diff order. */
  function Select(diff: seq<ContentChange>, t: ChangeType, idx: map<int, Fields>, now: string): (r: seq<Snap>)
    ensures forall x :: x in r ==>
      x.at == now && x.fields == FieldsOr(idx, x.id) && ContentChange(t, x.id) in diff
    ensures forall d :: d in diff && d.changeType == t ==> Snap(d.id, FieldsOr(idx, d.id), now) in r
    ensures (forall d :: d in diff ==> d.changeType != t) ==> r == []
  {
    if diff == [] then []
    else
      var n := |diff| - 1;
      var front := Select(diff[..n], t, idx, now);
      assert diff == diff[..n] + [diff[n]];
      if diff[n].changeType == t then front + [Snap(diff[n].id, FieldsOr(idx, diff[n].id), now)] else front
  }

  /** The snapshots among `snaps` whose key is not in `existing`, in order. */
  function Fresh(existing: set<SnapKey>, snaps: seq<Snap>): (r: seq<Snap>)
    ensures forall x :: x in r <==> x in snaps && KeyOf(x) !in existing
    ensures (forall x :: x in snaps ==> KeyOf(x) in existing) ==> r == []
  {
    if snaps == [] then []
    else
      var n := |snaps| - 1;
      assert snaps == snaps[..n] + [snaps[n]];
      var front := Fresh(existing, snaps[..n]);
      if KeyOf(snaps[n]) in existing then front else front + [snaps[n]]
  }

  /** The history after one merge: `existing` is taken from the history before
      the loop, so the snapshots are only checked against the old entries. */
  function Merge(hist: seq<Snap>, snaps: seq<Snap>): (r: seq<Snap>)
    ensures hist <= r
  {
    if snaps == [] then hist else hist + Fresh(Keys(hist), snaps)
  }

  /** The append loop shared by both histories. */
  method AppendFresh(hist: seq<Snap>, snaps: seq<Snap>) returns (r: seq<Snap>)
    ensures r == hist + Fresh(Keys(hist), snaps)
  {
    var existing := set h | h in hist :: KeyOf(h);
    r := hist;
    for j := 0 to |snaps|
      invariant r == hist + Fresh(existing, snaps[..j])
    {
      assert snaps[..j + 1][..j] == snaps[..j];
      if KeyOf(snaps[j]) !in existing {
        r := r + [snaps[j]];
      }
    }
    assert snaps[..|snaps|] == snaps;
  }

  /** The history block of `background_audit`: collect both snapshot lists in
      one pass over the diff, then merge each non-empty list into its history. */
  method MergeHistories(base: seq<Row>, cur: seq<Row>, diff: seq<ContentChange>, now: string,
                        removedHist: seq<Snap>, addedHist: seq<Snap>)
    returns (removedOut: seq<Snap>, addedOut: seq<Snap>)
    ensures removedOut == Merge(removedHist, Select(diff, RemovedRow, Index(base), now))
    ensures addedOut == Merge(addedHist, Select(diff, AddedRow, Index(cur), now))
  {
    var baseIdx := Index(base);
    var curIdx := Index(cur);
    var removedSnaps: seq<Snap> := [];
    var addedSnaps: seq<Snap> := [];
    for i := 0 to |diff|
      invariant removedSnaps == Select(diff[..i], RemovedRow, baseIdx, now)
      invariant addedSnaps == Select(diff[..i], AddedRow, curIdx, now)
    {
      assert diff[..i + 1][..i] == diff[..i];
      var rid := diff[i].id;
      if diff[i].changeType == RemovedRow {
        removedSnaps := removedSnaps + [Snap(rid, FieldsOr(baseIdx, rid), now)];
      } else if diff[i].changeType == AddedRow {
        addedSnaps := addedSnaps + [Snap(rid, FieldsOr(curIdx, rid), now)];
      }
    }
    assert diff[..|diff|] == diff;
    removedOut := removedHist;
    if removedSnaps != [] {
      removedOut := AppendFresh(removedHist, removedSnaps);
    }
    addedOut := addedHist;
    if addedSnaps != [] {
      addedOut := AppendFresh(addedHist, addedSnaps);
    }
  }

  /** What a merge appends: exactly the snapshots whose key the old history
      did not hold, each in the order the snapshots came. */
  lemma MergeAppendsFresh(hist: seq<Snap>, snaps: seq<Snap>)
    ensures forall x :: x in Merge(hist, snaps)[|hist|..] <==> x in snaps && KeyOf(x) !in Keys(hist)
  {
    if snaps != [] {
      assert Merge(hist, snaps)[|hist|..] == Fresh(Keys(hist), snaps);
    }
  }

  /** After a merge every snapshot's key is in the history. */
  lemma MergeRecordsAll(hist: seq<Snap>, snaps: seq<Snap>)
    ensures forall x :: x in snaps ==> KeyOf(x) in Keys(Merge(hist, snaps))
  {
    var m := Merge(hist, snaps);
    forall x | x in snaps ensures KeyOf(x) in Keys(m) {
      if KeyOf(x) in Keys(hist) {
        var h :| h in hist && KeyOf(h) == KeyOf(x);
        assert h in m;
      } else {
        assert x in Fresh(Keys(hist), snaps);
        assert x in m;
      }
    }
  }

  /** Merging the same snapshots a second time adds nothing. */
  lemma MergeIdempotent(hist: seq<Snap>, snaps: seq<Snap>)
    ensures Merge(Merge(hist, snaps), snaps) == Merge(hist, snaps)
  {
    MergeRecordsAll(hist, snaps);
    var m := Merge(hist, snaps);
    if snaps != [] {
      assert Fresh(Keys(m), snaps) == [];
    }
  }

  /** A later run that sees the same diff, with a different timestamp, adds
      nothing either: the key leaves the timestamp out. */
  lemma MergeRerun(hist: seq<Snap>, diff: seq<ContentChange>, t: ChangeType, idx: map<int, Fields>, now1: string, now2: string)
    ensures Merge(Merge(hist, Select(diff, t, idx, now1)), Select(diff, t, idx, now2))
         == Merge(hist, Select(diff, t, idx, now1))
  {
    var s1 := Select(diff, t, idx, now1);
    var s2 := Select(diff, t, idx, now2);
    var m := Merge(hist, s1);
    MergeRecordsAll(hist, s1);
    forall x | x in s2 ensures KeyOf(x) in Keys(m) {
      assert Snap(x.id, x.fields, now1) in s1;
    }
  }

  /** One more snapshot: it is kept exactly when its key is new. */
  lemma FreshSnoc(existing: set<SnapKey>, s: seq<Snap>, x: Snap)
    ensures Fresh(existing, s + [x]) == Fresh(existing, s) + (if KeyOf(x) in existing then [] else [x])
  {
    var t := s + [x];
    assert t[..|t| - 1] == s;
  }

  /** Filtering distributes over concatenation: the kept snapshots stay in
      the order, and with the multiplicity, they had in `snaps`. */
  lemma {:induction false} FreshAppend(existing: set<SnapKey>, a: seq<Snap>, b: seq<Snap>)
    ensures Fresh(existing, a + b) == Fresh(existing, a) + Fresh(existing, b)
  {
    if b == [] {
      assert a + b == a;
    } else {
      var n := |b| - 1;
      var front := b[..n];
      assert b == front + [b[n]];
      assert a + b == (a + front) + [b[n]];
      FreshAppend(existing, a, front);
      FreshSnoc(existing, a + front, b[n]);
      FreshSnoc(existing, front, b[n]);
    }
  }

  /** A diff without removal (addition) records leaves the removed (added)
      history exactly as it was. */
  lemma HistoryUntouched(diff: seq<ContentChange>, t: ChangeType, idx: map<int, Fields>, now: string, hist: seq<Snap>)
    requires forall d :: d in diff ==> d.changeType != t
    ensures Merge(hist, Select(diff, t, idx, now)) == hist
  {
  }

  /** No two snapshots share an id. */
  ghost predicate DistinctSnapIds(r: seq<Snap>) {
    forall i, j :: 0 <= i < j < |r| ==> r[i].id != r[j].id
  }

  /** One diff record per id gives one snapshot per id. */
  lemma {:induction false} SelectDistinct(diff: seq<ContentChange>, t: ChangeType, idx: map<int, Fields>, now: string)
    requires DistinctIds(diff)
    ensures DistinctSnapIds(Select(diff, t, idx, now))
  {
    if diff != [] {
      var n := |diff| - 1;
      assert DistinctIds(diff[..n]);
      SelectDistinct(diff[..n], t, idx, now);
      var front := Select(diff[..n], t, idx, now);
      if diff[n].changeType == t {
        var r := front + [Snap(diff[n].id, FieldsOr(idx, diff[n].id), now)];
        forall i, j | 0 <= i < j < |r| ensures r[i].id != r[j].id {
          if j == |front| {
            assert r[i] == front[i] && front[i] in front;
            var q :| 0 <= q < n && diff[..n][q] == ContentChange(t, front[i].id);
            assert diff[q] == diff[..n][q];
          } else {
            assert r[i] == front[i] && r[j] == front[j];
          }
        }
      }
    }
  }

  /** Keeping a subsequence keeps ids distinct. */
  lemma {:induction false} FreshDistinct(existing: set<SnapKey>, snaps: seq<Snap>)
    requires DistinctSnapIds(snaps)
    ensures DistinctSnapIds(Fresh(existing, snaps))
  {
    if snaps != [] {
      var n := |snaps| - 1;
      assert DistinctSnapIds(snaps[..n]);
      FreshDistinct(existing, snaps[..n]);
      var front := Fresh(existing, snaps[..n]);
      if KeyOf(snaps[n]) !in existing {
        var r := front + [snaps[n]];
        forall i, j | 0 <= i < j < |r| ensures r[i].id != r[j].id {
          if j == |front| {
            assert r[i] == front[i] && front[i] in front && front[i] in snaps[..n];
            var q :| 0 <= q < n && snaps[..n][q] == front[i];
            assert snaps[q] == snaps[..n][q];
          } else {
            assert r[i] == front[i] && r[j] == front[j];
          }
        }
      }
    }
  }

  /** Although `existing` is read once, before the append loop, one run never
      appends two snapshots of the same row: the diff lists each id once. */
  lemma MergeAppendsDistinct(hist: seq<Snap>, diff: seq<ContentChange>, t: ChangeType, idx: map<int, Fields>, now: string)
    requires DistinctIds(diff)
    ensures DistinctSnapIds(Merge(hist, Select(diff, t, idx, now))[|hist|..])
  {
    var snaps := Select(diff, t, idx, now);
    SelectDistinct(diff, t, idx, now);
    if snaps != [] {
      FreshDistinct(Keys(hist), snaps);
      assert Merge(hist, snaps)[|hist|..] == Fresh(Keys(hist), snaps);
    } else {
      assert Merge(hist, snaps)[|hist|..] == [];
    }
  }

  /** A row removed since the baseline lands in the removed history with the
      fields it had in the baseline. */
  lemma ScenarioRemovedRowIsRecorded(now: string)
    ensures Merge([], Select([ContentChange(RemovedRow, 1)], RemovedRow,
                             Index([Row(1, map["name" := Str("A")])]), now))
         == [Snap(1, map["name" := Str("A")], now)]
  {
    var idx := Index([Row(1, map["name" := Str("A")])]);
    assert idx == map[1 := map["name" := Str("A")]];
    var diff := [ContentChange(RemovedRow, 1)];
    assert diff[..0] == [];
    var snaps := Select(diff, RemovedRow, idx, now);
    assert snaps == [Snap(1, map["name" := Str("A")], now)];
    assert snaps[..0] == [];
    assert Keys([]) == {};
    assert Fresh({}, snaps) == snaps;
  }
}
