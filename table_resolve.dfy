/** Finding the document table to audit: `_normalize` and
    `resolve_target_table_id`. The table listing is a parameter. */
module TableResolve {

  predicate IsAscii(c: char) {
    c as int < 128
  }

  predicate IsUpper(c: char) {
    'A' <= c <= 'Z'
  }

  /** Python's `str.isspace()` on ASCII characters, the set `str.strip()` removes:
      space, tab, line feed, vertical tab, form feed, carriage return, and the
      four separators 0x1C to 0x1F. */
  predicate IsSpace(c: char) {
    c == ' ' || (9 <= c as int <= 13) || (28 <= c as int <= 31)
  }

  /** A character of the class `[ .]`. */
  predicate IsSep(c: char) {
    c == ' ' || c == '.'
  }

  /** Text `_normalize` has made ASCII and lower case. */
  predicate Clean(s: string) {
    forall k :: 0 <= k < |s| ==> IsAscii(s[k]) && !IsUpper(s[k])
  }

  /** `.encode("ascii", "ignore").decode("ascii")`: drop every non-ASCII character. */
  function AsciiOnly(s: string): string {
    if s == [] then []
    else if IsAscii(s[0]) then [s[0]] + AsciiOnly(s[1..])
    else AsciiOnly(s[1..])
  }

  function LowerChar(c: char): char {
    if IsUpper(c) then (c as int + 32) as char else c
  }

  /** `str.lower()` on ASCII text. */
  function Lower(s: string): string {
    seq(|s|, k requires 0 <= k < |s| => LowerChar(s[k]))
  }

  /** Leading whitespace removed. */
  function StripStart(s: string): (r: string)
    ensures |r| <= |s|
  {
    if s != [] && IsSpace(s[0]) then StripStart(s[1..]) else s
  }

  /** Trailing whitespace removed. */
  function StripEnd(s: string): (r: string)
    ensures |r| <= |s|
  {
    if s != [] && IsSpace(s[|s| - 1]) then StripEnd(s[..|s| - 1]) else s
  }

  /** `str.strip()`. */
  function Strip(s: string): string {
    StripEnd(StripStart(s))
  }

  /** The rest of `s` after its leading separators. */
  function DropSeps(s: string): (r: string)
    ensures |r| <= |s|
  {
    if s != [] && IsSep(s[0]) then DropSeps(s[1..]) else s
  }

  /** `re.sub(r"[ .]+", "_", s)`: each maximal run of spaces and dots becomes one underscore. */
  function Collapse(s: string): string
    decreases |s|
  {
    if s == [] then []
    else if IsSep(s[0]) then "_" + Collapse(DropSeps(s[1..]))
    else [s[0]] + Collapse(s[1..])
  }

  /** `_normalize(s)`: ASCII only, lower case, stripped, runs of spaces and dots
      replaced by "_". */
  function Normalize(s: string): (r: string)
    ensures Normalized(r)
  {
    AsciiOnlyFacts(s);
    var l := Lower(AsciiOnly(s));
    assert Clean(l);
    StripFacts(l);
    CollapseChars(Strip(l));
    CollapseEnds(Strip(l));
    Collapse(Strip(l))
  }

  /** What `_normalize` returns: ASCII, no capital letter, no space or dot,
      and no whitespace at either end. */
  predicate Normalized(t: string) {
    && Clean(t)
    && (forall k :: 0 <= k < |t| ==> !IsSep(t[k]))
    && (t == [] || (!IsSpace(t[0]) && !IsSpace(t[|t| - 1])))
  }

  lemma {:induction false} AsciiOnlyFacts(s: string)
    ensures forall k :: 0 <= k < |AsciiOnly(s)| ==> IsAscii(AsciiOnly(s)[k])
    ensures (forall k :: 0 <= k < |s| ==> IsAscii(s[k])) ==> AsciiOnly(s) == s
  {
    if s != [] {
      AsciiOnlyFacts(s[1..]);
    }
  }

  /** StripStart removes whitespace only, and all of the leading whitespace. */
  lemma {:induction false} StripStartFacts(s: string)
    ensures var r := StripStart(s);
      && |r| <= |s| && r == s[|s| - |r|..]
      && (forall k :: 0 <= k < |s| - |r| ==> IsSpace(s[k]))
      && (r == [] || !IsSpace(r[0]))
  {
    if s != [] && IsSpace(s[0]) {
      StripStartFacts(s[1..]);
      assert forall k :: 1 <= k < |s| ==> s[k] == s[1..][k - 1];
    }
  }

  /** StripEnd removes whitespace only, and all of the trailing whitespace. */
  lemma {:induction false} StripEndFacts(s: string)
    ensures var r := StripEnd(s);
      && |r| <= |s| && r == s[..|r|]
      && (forall k :: |r| <= k < |s| ==> IsSpace(s[k]))
      && (r == [] || !IsSpace(r[|r| - 1]))
  {
    if s != [] && IsSpace(s[|s| - 1]) {
      StripEndFacts(s[..|s| - 1]);
      assert forall k :: 0 <= k < |s| - 1 ==> s[k] == s[..|s| - 1][k];
    }
  }

  /** Stripping removes leading whitespace, giving `t`, then trailing whitespace,
      giving `r`: everything cut off is whitespace, the ends left are not, and
      clean text stays clean. */
  lemma StripFacts(s: string)
    ensures Clean(s) ==> Clean(Strip(s))
    ensures var t := StripStart(s); var r := Strip(s);
      && t == s[|s| - |t|..] && (forall k :: 0 <= k < |s| - |t| ==> IsSpace(s[k]))
      && r == t[..|r|] && (forall k :: |r| <= k < |t| ==> IsSpace(t[k]))
      && (r == [] || (!IsSpace(r[0]) && !IsSpace(r[|r| - 1])))
  {
    var t := StripStart(s);
    StripStartFacts(s);
    StripEndFacts(t);
    var r := Strip(s);
    assert forall k :: 0 <= k < |r| ==> r[k] == s[|s| - |t| + k];
  }

  lemma {:induction false} DropSepsFacts(s: string)
    ensures var r := DropSeps(s);
      && r == s[|s| - |r|..]
      && (forall k :: 0 <= k < |s| - |r| ==> IsSep(s[k]))
      && (r == [] || !IsSep(r[0]))
  {
    if s != [] && IsSep(s[0]) {
      DropSepsFacts(s[1..]);
    }
  }

  /** Collapsing leaves no space or dot and keeps clean text clean. */
  lemma {:induction false} CollapseChars(s: string)
    decreases |s|
    ensures forall k :: 0 <= k < |Collapse(s)| ==> !IsSep(Collapse(s)[k])
    ensures Clean(s) ==> Clean(Collapse(s))
  {
    if s != [] {
      if IsSep(s[0]) {
        var d := DropSeps(s[1..]);
        DropSepsFacts(s[1..]);
        CollapseChars(d);
        assert forall k :: 0 <= k < |d| ==> d[k] == s[|s| - |d| + k];
      } else {
        CollapseChars(s[1..]);
      }
    }
  }

  /** A separator at either end becomes "_"; any other end character stays. */
  lemma {:induction false} CollapseEnds(s: string)
    decreases |s|, 1
    ensures var r := Collapse(s);
      && (s == [] <==> r == [])
      && (s != [] ==> r[0] == (if IsSep(s[0]) then '_' else s[0]))
      && (s != [] ==> r[|r| - 1] == (if IsSep(s[|s| - 1]) then '_' else s[|s| - 1]))
  {
    if s != [] {
      if IsSep(s[0]) {
        CollapseEndsSep(s);
      } else {
        CollapseEnds(s[1..]);
      }
    }
  }

  /** CollapseEnds when `s` starts with a separator. */
  lemma {:induction false} CollapseEndsSep(s: string)
    requires s != [] && IsSep(s[0])
    decreases |s|, 0
    ensures var r := Collapse(s);
      && r != [] && r[0] == '_'
      && r[|r| - 1] == (if IsSep(s[|s| - 1]) then '_' else s[|s| - 1])
  {
    var d := DropSeps(s[1..]);
    DropSepsFacts(s[1..]);
    CollapseEnds(d);
    if d == [] {
      assert forall k :: 0 <= k < |s| - 1 ==> IsSep(s[1..][k]);
    } else {
      assert d[|d| - 1] == s[|s| - 1];
    }
  }

  /** Text without separators is left as it is. */
  lemma {:induction false} CollapseKeeps(s: string)
    requires forall k :: 0 <= k < |s| ==> !IsSep(s[k])
    ensures Collapse(s) == s
  {
    if s != [] {
      CollapseKeeps(s[1..]);
    }
  }

  /** Only the leading separators go: the rest is kept from the first other character on. */
  lemma {:induction false} DropSepsAppend(a: string, x: string)
    requires a != [] && !IsSep(a[|a| - 1])
    ensures DropSeps(a + x) == DropSeps(a) + x
  {
    if IsSep(a[0]) {
      assert (a + x)[1..] == a[1..] + x;
      DropSepsAppend(a[1..], x);
    }
  }

  /** A run of separators in front of a non-separator is dropped entirely. */
  lemma {:induction false} DropSepsRun(r: string, b: string)
    requires forall k :: 0 <= k < |r| ==> IsSep(r[k])
    requires b == [] || !IsSep(b[0])
    ensures DropSeps(r + b) == b
  {
    if r == [] {
      assert r + b == b;
    } else {
      assert (r + b)[1..] == r[1..] + b;
      DropSepsRun(r[1..], b);
    }
  }

  /** Text that does not end in a separator is collapsed on its own: no run
      reaches across its end. */
  lemma {:induction false} CollapseAppend(a: string, x: string)
    requires a == [] || !IsSep(a[|a| - 1])
    ensures Collapse(a + x) == Collapse(a) + Collapse(x)
    decreases |a|, 1
  {
    if a == [] {
      assert a + x == x;
    } else if IsSep(a[0]) {
      CollapseAppendSep(a, x);
    } else {
      CollapseAppendKeep(a, x);
    }
  }

  /** CollapseAppend when `a` starts with a separator. */
  lemma {:induction false} CollapseAppendSep(a: string, x: string)
    requires a != [] && IsSep(a[0]) && !IsSep(a[|a| - 1])
    ensures Collapse(a + x) == Collapse(a) + Collapse(x)
    decreases |a|, 0
  {
    assert (a + x)[0] == a[0] && (a + x)[1..] == a[1..] + x;
    var d := DropSeps(a[1..]);
    assert d != [] && d[|d| - 1] == a[|a| - 1] by {
      DropSepsFacts(a[1..]);
    }
    calc {
      Collapse(a + x);
      "_" + Collapse(DropSeps(a[1..] + x));
      { DropSepsAppend(a[1..], x); }
      "_" + Collapse(d + x);
      { CollapseAppend(d, x); }
      "_" + (Collapse(d) + Collapse(x));
      Collapse(a) + Collapse(x);
    }
  }

  /** CollapseAppend when `a` starts with any other character. */
  lemma {:induction false} CollapseAppendKeep(a: string, x: string)
    requires a != [] && !IsSep(a[0]) && !IsSep(a[|a| - 1])
    ensures Collapse(a + x) == Collapse(a) + Collapse(x)
    decreases |a|, 0
  {
    assert (a + x)[0] == a[0] && (a + x)[1..] == a[1..] + x;
    calc {
      Collapse(a + x);
      [a[0]] + Collapse(a[1..] + x);
      { CollapseAppend(a[1..], x); }
      [a[0]] + (Collapse(a[1..]) + Collapse(x));
      Collapse(a) + Collapse(x);
    }
  }

  /** Each maximal run of separators becomes exactly one "_". */
  lemma CollapseRun(a: string, r: string, b: string)
    requires a == [] || !IsSep(a[|a| - 1])
    requires r != [] && forall k :: 0 <= k < |r| ==> IsSep(r[k])
    requires b == [] || !IsSep(b[0])
    ensures Collapse(a + (r + b)) == Collapse(a) + ("_" + Collapse(b))
  {
    CollapseAppend(a, r + b);
    CollapseRunStart(r, b);
  }

  lemma CollapseRunStart(r: string, b: string)
    requires r != [] && forall k :: 0 <= k < |r| ==> IsSep(r[k])
    requires b == [] || !IsSep(b[0])
    ensures Collapse(r + b) == "_" + Collapse(b)
  {
    var rb := r + b;
    assert rb[0] == r[0] && rb[1..] == r[1..] + b;
    DropSepsRun(r[1..], b);
  }

  /** A normalised name is its own normal form. */
  lemma NormalizeFixes(t: string)
    requires Normalized(t)
    ensures Normalize(t) == t
  {
    AsciiOnlyFacts(t);
    assert Lower(t) == t;
    assert StripStart(t) == t;
    assert StripEnd(t) == t;
    CollapseKeeps(t);
  }

  /** Normalising twice is normalising once. */
  lemma NormalizeIdempotent(s: string)
    ensures Normalize(Normalize(s)) == Normalize(s)
  {
    NormalizeFixes(Normalize(s));
  }

  /** A table as `list_tables` returns it: `t.get("id","")` and `t.get("name","")`. */
  datatype TableInfo = TableInfo(id: string, name: string)

  /** `t.get("name","") or tid`. */
  function DisplayName(t: TableInfo): string {
    if t.name != "" then t.name else t.id
  }

  /** The two tests a table passes to be chosen: its id or name equals the
      wanted name, as written or once both are normalised. The exact test adds
      nothing to the normalised one. */
  predicate Matches(t: TableInfo, wanted: string)
    ensures Matches(t, wanted) <==>
      Normalize(t.id) == Normalize(wanted) || Normalize(DisplayName(t)) == Normalize(wanted)
  {
    || t.id == wanted || DisplayName(t) == wanted
    || Normalize(t.id) == Normalize(wanted) || Normalize(DisplayName(t)) == Normalize(wanted)
  }

  /** The two tests of the loop body, against the precomputed `wn`. */
  method TableMatches(t: TableInfo, wanted: string, wn: string) returns (b: bool)
    requires wn == Normalize(wanted)
    ensures b == Matches(t, wanted)
  {
    var tid := t.id;
    var name := if t.name != "" then t.name else tid;
    b := tid == wanted || name == wanted || Normalize(tid) == wn || Normalize(name) == wn;
  }

  /** `resolve_target_table_id()`: a configured id wins; otherwise the first
      listed table that matches the wanted name (TARGET_TABLE_NAME, else
      TARGET_TABLE); otherwise the wanted name itself. */
  method ResolveTargetTableId(targetId: string, targetName: string, targetTable: string, tables: seq<TableInfo>)
    returns (r: string)
    ensures targetId != "" ==> r == targetId
    ensures targetId == "" ==>
      var wanted := if targetName != "" then targetName else targetTable;
      || (exists i :: 0 <= i < |tables| && Matches(tables[i], wanted) && r == tables[i].id
            && forall j :: 0 <= j < i ==> !Matches(tables[j], wanted))
      || ((forall j :: 0 <= j < |tables| ==> !Matches(tables[j], wanted)) && r == wanted)
  {
    if targetId != "" {
      return targetId;
    }
    var wanted := if targetName != "" then targetName else targetTable;
    var wn := Normalize(wanted);
    for i := 0 to |tables|
      invariant forall j :: 0 <= j < i ==> !Matches(tables[j], wanted)
    {
      var found := TableMatches(tables[i], wanted, wn);
      if found {
        return tables[i].id;
      }
    }
    return wanted;
  }

  /** A wanted name that differs from a table id only in case and in a space
      where the id joins two words with "_" picks that table: for example
      "Equip List" and the table "equip_list". */
  lemma LooseNameMatches(w: string, a: string, b: string)
    requires forall k :: 0 <= k < |w| ==> IsAscii(w[k])
    requires Normalized(a) && Normalized(b) && a != [] && b != []
    requires Lower(w) == a + " " + b
    ensures Normalize(w) == a + "_" + b
    ensures Matches(TableInfo(a + "_" + b, ""), w)
  {
    var n := a + " " + b;
    assert AsciiOnly(w) == w by {
      AsciiOnlyFacts(w);
    }
    assert n[0] == a[0] && n[|n| - 1] == b[|b| - 1];
    assert StripStart(n) == n;
    assert Strip(n) == n;
    CollapseSpaced(a, b);
    JoinNormalized(a, b);
    NormalizeFixes(a + "_" + b);
  }

  /** Two words without separators, joined by one space, collapse to the words joined by "_". */
  lemma CollapseSpaced(a: string, b: string)
    requires forall k :: 0 <= k < |a| ==> !IsSep(a[k])
    requires forall k :: 0 <= k < |b| ==> !IsSep(b[k])
    ensures Collapse(a + " " + b) == a + "_" + b
  {
    Regroup(a, " ", b);
    Regroup(a, "_", b);
    CollapseRun(a, " ", b);
    CollapseKeeps(a);
    CollapseKeeps(b);
  }

  lemma Regroup(a: string, m: string, b: string)
    ensures a + m + b == a + (m + b)
  {
  }

  /** Two normalised words joined by "_" are a normalised name. */
  lemma JoinNormalized(a: string, b: string)
    requires Normalized(a) && Normalized(b) && a != [] && b != []
    ensures Normalized(a + "_" + b)
  {
    var id := a + "_" + b;
    assert forall k :: 0 <= k < |a| ==> id[k] == a[k];
    assert forall k :: |a| < k < |id| ==> id[k] == b[k - |a| - 1];
  }
}
