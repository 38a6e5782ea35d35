/** Python's ordering of strings and of `(tableId, colId)` pairs, and `sorted()`
    applied to a set: the ascending sequence of its elements. */
module Order {

  /** Python's `a < b` on str: code point by code point, a proper prefix first. */
  predicate StrLt(a: string, b: string) {
    if a == [] then b != []
    else if b == [] then false
    else a[0] < b[0] || (a[0] == b[0] && StrLt(a[1..], b[1..]))
  }

  /** Identity of a column: (table id, column id). */
  type Key = (string, string)

  /** Python's `<` on 2-tuples: by the first component, then the second. */
  predicate KeyLt(a: Key, b: Key) {
    StrLt(a.0, b.0) || (a.0 == b.0 && StrLt(a.1, b.1))
  }

  ghost predicate StrictTotal<T(!new)>(lt: (T, T) -> bool) {
    && (forall a :: !lt(a, a))
    && (forall a, b, c :: lt(a, b) && lt(b, c) ==> lt(a, c))
    && (forall a, b :: a != b ==> lt(a, b) || lt(b, a))
  }

  lemma {:induction false} StrLtIrreflexive(a: string)
    ensures !StrLt(a, a)
  {
    if a != [] { StrLtIrreflexive(a[1..]); }
  }

  lemma {:induction false} StrLtTransitive(a: string, b: string, c: string)
    requires StrLt(a, b) && StrLt(b, c)
    ensures StrLt(a, c)
  {
    if a != [] && b != [] && c != [] && a[0] == b[0] == c[0] {
      StrLtTransitive(a[1..], b[1..], c[1..]);
    }
  }

  lemma {:induction false} StrLtTotal(a: string, b: string)
    requires a != b
    ensures StrLt(a, b) || StrLt(b, a)
  {
    if a != [] && b != [] && a[0] == b[0] {
      assert a == [a[0]] + a[1..] && b == [b[0]] + b[1..];
      StrLtTotal(a[1..], b[1..]);
    }
  }

  lemma StrLtStrictTotal()
    ensures StrictTotal(StrLt)
  {
    forall a ensures !StrLt(a, a) { StrLtIrreflexive(a); }
    forall a, b, c | StrLt(a, b) && StrLt(b, c) ensures StrLt(a, c) { StrLtTransitive(a, b, c); }
    forall a, b | a != b ensures StrLt(a, b) || StrLt(b, a) { StrLtTotal(a, b); }
  }

  lemma KeyLtStrictTotal()
    ensures StrictTotal(KeyLt)
  {
    forall a ensures !KeyLt(a, a) { StrLtIrreflexive(a.0); StrLtIrreflexive(a.1); }
    forall a, b, c | KeyLt(a, b) && KeyLt(b, c) ensures KeyLt(a, c) {
      if StrLt(a.0, b.0) && StrLt(b.0, c.0) { StrLtTransitive(a.0, b.0, c.0); }
      if a.0 == b.0 == c.0 && StrLt(a.1, b.1) && StrLt(b.1, c.1) { StrLtTransitive(a.1, b.1, c.1); }
    }
    forall a, b | a != b ensures KeyLt(a, b) || KeyLt(b, a) {
      if a.0 != b.0 { StrLtTotal(a.0, b.0); } else { StrLtTotal(a.1, b.1); }
    }
  }

  predicate IsLeast<T>(m: T, s: set<T>, lt: (T, T) -> bool) {
    m in s && forall y :: y in s ==> !lt(y, m)
  }

  lemma {:induction false} LeastExists<T(!new)>(s: set<T>, lt: (T, T) -> bool)
    requires StrictTotal(lt) && s != {}
    ensures exists m :: IsLeast(m, s, lt)
    decreases |s|
  {
    var x :| x in s;
    if s != {x} {
      LeastExists(s - {x}, lt);
      var m :| IsLeast(m, s - {x}, lt);
      if lt(x, m) {
        assert IsLeast(x, s, lt);
      } else {
        assert IsLeast(m, s, lt);
      }
    } else {
      assert IsLeast(x, s, lt);
    }
  }

  lemma LeastUnique<T(!new)>(m1: T, m2: T, s: set<T>, lt: (T, T) -> bool)
    requires StrictTotal(lt) && IsLeast(m1, s, lt) && IsLeast(m2, s, lt)
    ensures m1 == m2
  {
  }

  ghost function Least<T(!new)>(s: set<T>, lt: (T, T) -> bool): (m: T)
    requires StrictTotal(lt) && s != {}
    ensures IsLeast(m, s, lt)
  {
    LeastExists(s, lt);
    var m :| IsLeast(m, s, lt); m
  }

  ghost predicate Increasing<T>(r: seq<T>, lt: (T, T) -> bool) {
    forall i, j :: 0 <= i < j < |r| ==> lt(r[i], r[j])
  }

  /** `sorted(s)` for a set `s`: its elements in ascending order, each once. */
  ghost function Sort<T(!new)>(s: set<T>, lt: (T, T) -> bool): seq<T>
    requires StrictTotal(lt)
    decreases s
  {
    if s == {} then []
    else
      var m := Least(s, lt);
      [m] + Sort(s - {m}, lt)
  }

  /** Sorting lists exactly the set's elements, each once. */
  lemma {:induction false} SortElements<T(!new)>(s: set<T>, lt: (T, T) -> bool)
    requires StrictTotal(lt)
    ensures forall x :: x in Sort(s, lt) <==> x in s
    ensures |Sort(s, lt)| == |s|
    decreases s
  {
    if s != {} {
      var m := Least(s, lt);
      SortElements(s - {m}, lt);
      assert Sort(s, lt) == [m] + Sort(s - {m}, lt);
    }
  }

  /** Sorting lists the elements in increasing order. */
  lemma {:induction false} SortIncreasing<T(!new)>(s: set<T>, lt: (T, T) -> bool)
    requires StrictTotal(lt)
    ensures Increasing(Sort(s, lt), lt)
    decreases s
  {
    if s != {} {
      var m := Least(s, lt);
      SortIncreasing(s - {m}, lt);
      SortElements(s - {m}, lt);
      var rest := Sort(s - {m}, lt);
      var r := [m] + rest;
      assert Sort(s, lt) == r;
      forall i, j | 0 <= i < j < |r| ensures lt(r[i], r[j]) {
        if i == 0 {
          assert r[j] == rest[j - 1] && r[j] in s - {m};
        } else {
          assert r[i] == rest[i - 1] && r[j] == rest[j - 1];
        }
      }
    }
  }

  /** Sorting lists exactly the set's elements, in increasing order. */
  lemma SortSorts<T(!new)>(s: set<T>, lt: (T, T) -> bool)
    requires StrictTotal(lt)
    ensures var r := Sort(s, lt);
      && (forall x :: x in r <==> x in s)
      && Increasing(r, lt)
      && |r| == |s|
  {
    SortElements(s, lt);
    SortIncreasing(s, lt);
  }

  /** An increasing sequence lists its elements without repetition. */
  lemma IncreasingDistinct<T(!new)>(r: seq<T>, lt: (T, T) -> bool, i: int, j: int)
    requires StrictTotal(lt) && Increasing(r, lt)
    requires 0 <= i < |r| && 0 <= j < |r| && i != j
    ensures r[i] != r[j]
  {
    if i < j { assert lt(r[i], r[j]); } else { assert lt(r[j], r[i]); }
  }

  lemma SortUnfold<T(!new)>(s: set<T>, m: T, lt: (T, T) -> bool)
    requires StrictTotal(lt) && IsLeast(m, s, lt)
    ensures Sort(s, lt) == [m] + Sort(s - {m}, lt)
  {
    LeastUnique(m, Least(s, lt), s, lt);
  }

  /** The executable counterpart of `sorted()`: repeatedly take the least
      remaining element. */
  method SortSet<T(!new)>(s: set<T>, lt: (T, T) -> bool) returns (r: seq<T>)
    requires StrictTotal(lt)
    ensures r == Sort(s, lt)
  {
    r := [];
    var rest := s;
    while rest != {}
      invariant r + Sort(rest, lt) == Sort(s, lt)
      decreases |rest|
    {
      LeastExists(rest, lt);
      var m :| IsLeast(m, rest, lt);
      SortUnfold(rest, m, lt);
      assert r + Sort(rest, lt) == (r + [m]) + Sort(rest - {m}, lt);
      r := r + [m];
      rest := rest - {m};
    }
  }

  /** `sorted()` on a set of strings. */
  ghost function SortedStrings(s: set<string>): (r: seq<string>)
    ensures forall x :: x in r <==> x in s
    ensures Increasing(r, StrLt)
    ensures s == {} ==> r == []
  {
    StrLtStrictTotal();
    SortSorts(s, StrLt);
    Sort(s, StrLt)
  }

  /** `sorted()` on a set of (tableId, colId) pairs. */
  ghost function SortedKeys(s: set<Key>): (r: seq<Key>)
    ensures forall x :: x in r <==> x in s
    ensures Increasing(r, KeyLt)
    ensures forall i, j :: 0 <= i < j < |r| ==> r[i] != r[j]
  {
    KeyLtStrictTotal();
    SortSorts(s, KeyLt);
    var r := Sort(s, KeyLt);
    forall i, j | 0 <= i < j < |r| ensures r[i] != r[j] { IncreasingDistinct(r, KeyLt, i, j); }
    r
  }

  method SortStrings(s: set<string>) returns (r: seq<string>)
    ensures r == SortedStrings(s)
  {
    StrLtStrictTotal();
    r := SortSet(s, StrLt);
  }

  method SortKeys(s: set<Key>) returns (r: seq<Key>)
    ensures r == SortedKeys(s)
  {
    KeyLtStrictTotal();
    r := SortSet(s, KeyLt);
  }

  lemma KeyLtAsymmetric(a: Key, b: Key)
    ensures !(KeyLt(a, b) && KeyLt(b, a))
  {
    KeyLtStrictTotal();
  }
}
