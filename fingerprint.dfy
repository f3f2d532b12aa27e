/** The structural fingerprint of a schema and the decision to re-run the
    automatic layout. The fingerprint is the sorted table names, the sorted
    enum names and the sorted `source->target` pairs of the refs; its JSON
    text is modelled by the record itself, which `JSON.stringify` renders
    injectively. */
module Fingerprint {
  import opened Common
  import opened TablesGrid
  import TableCoords
  import EnumCoords
  import CoordsStore
  import opened JsMap

  // ---------------------------------------------------------------- order

  /** The default order of `Array.prototype.sort` on strings: lexicographic
      by character, a proper prefix first. */
  predicate LessEq(a: string, b: string) {
    a == [] || (b != [] && (a[0] < b[0] || (a[0] == b[0] && LessEq(a[1..], b[1..]))))
  }

  lemma {:induction false} LessEqTotal(a: string, b: string)
    ensures LessEq(a, b) || LessEq(b, a)
  {
    if a != [] && b != [] && a[0] == b[0] {
      LessEqTotal(a[1..], b[1..]);
    }
  }

  lemma {:induction false} LessEqAntisymmetric(a: string, b: string)
    requires LessEq(a, b) && LessEq(b, a)
    ensures a == b
  {
    if a != [] && b != [] {
      LessEqAntisymmetric(a[1..], b[1..]);
      assert a == [a[0]] + a[1..] && b == [b[0]] + b[1..];
    }
  }

  lemma {:induction false} LessEqReflexive(a: string)
    ensures LessEq(a, a)
  {
    if a != [] {
      LessEqReflexive(a[1..]);
    }
  }

  lemma {:induction false} LessEqTransitive(a: string, b: string, c: string)
    requires LessEq(a, b) && LessEq(b, c)
    ensures LessEq(a, c)
  {
    if a != [] && b != [] && c != [] && a[0] == b[0] && b[0] == c[0] {
      LessEqTransitive(a[1..], b[1..], c[1..]);
    }
  }

  predicate Sorted(s: seq<string>) {
    forall i, j :: 0 <= i < j < |s| ==> LessEq(s[i], s[j])
  }

  // ---------------------------------------------------------------- sort

  function Insert(x: string, s: seq<string>): (r: seq<string>)
    ensures multiset(r) == multiset(s) + multiset{x}
  {
    if s == [] then [x]
    else if LessEq(x, s[0]) then [x] + s
    else
      assert s == [s[0]] + s[1..];
      [s[0]] + Insert(x, s[1..])
  }

  /** `.sort()` with no comparator. The order is total and ties are equal
      strings, so the sorted result does not depend on the algorithm. */
  function Sort(s: seq<string>): (r: seq<string>)
    ensures multiset(r) == multiset(s)
  {
    if s == [] then []
    else
      assert s == [s[0]] + s[1..];
      Insert(s[0], Sort(s[1..]))
  }

  lemma {:induction false} InsertSorted(x: string, s: seq<string>)
    requires Sorted(s)
    ensures Sorted(Insert(x, s))
  {
    if s == [] {
    } else if LessEq(x, s[0]) {
      forall j | 0 <= j < |s|
        ensures LessEq(x, s[j])
      {
        if j > 0 { LessEqTransitive(x, s[0], s[j]); }
      }
    } else {
      InsertSorted(x, s[1..]);
      LessEqTotal(x, s[0]);
      var r := Insert(x, s[1..]);
      forall j | 0 <= j < |r|
        ensures LessEq(s[0], r[j])
      {
        assert r[j] in multiset(r);
        if r[j] != x {
          assert r[j] in multiset(s[1..]);
          var k :| 0 <= k < |s[1..]| && s[1..][k] == r[j];
          assert s[k + 1] == r[j];
        }
      }
      assert Insert(x, s) == [s[0]] + r;
    }
  }

  lemma {:induction false} SortSorted(s: seq<string>)
    ensures Sorted(Sort(s))
  {
    if s != [] {
      SortSorted(s[1..]);
      InsertSorted(s[0], Sort(s[1..]));
    }
  }

  /** Removing one occurrence from a list removes it from its multiset. */
  lemma RemoveAt<T>(s: seq<T>, k: int)
    requires 0 <= k < |s|
    ensures multiset(s[..k] + s[k + 1..]) == multiset(s) - multiset{s[k]}
  {
    assert s == s[..k] + [s[k]] + s[k + 1..];
  }

  /** The head of a sorted list is below every element of the list. */
  lemma SortedHead(s: seq<string>, x: string)
    requires Sorted(s) && x in multiset(s)
    ensures LessEq(s[0], x)
  {
    var i :| 0 <= i < |s| && s[i] == x;
    if i == 0 {
      LessEqReflexive(x);
    }
  }

  lemma TailsSameElements<T>(a: seq<T>, b: seq<T>)
    requires a != [] && b != [] && a[0] == b[0] && multiset(a) == multiset(b)
    ensures multiset(a[1..]) == multiset(b[1..])
  {
    RemoveAt(a, 0);
    RemoveAt(b, 0);
    assert a[..0] + a[1..] == a[1..];
    assert b[..0] + b[1..] == b[1..];
  }

  lemma SortedTail(a: seq<string>)
    requires a != [] && Sorted(a)
    ensures Sorted(a[1..])
  {
    forall i, j | 0 <= i < j < |a| - 1
      ensures LessEq(a[1..][i], a[1..][j])
    {
      assert a[1..][i] == a[i + 1] && a[1..][j] == a[j + 1];
    }
  }

  /** Two sorted lists with the same elements are the same list. */
  lemma {:induction false} SortedUnique(a: seq<string>, b: seq<string>)
    requires Sorted(a) && Sorted(b) && multiset(a) == multiset(b)
    ensures a == b
  {
    if a != [] {
      assert a[0] in multiset(b);
      assert b != [] && b[0] in multiset(a);
      SortedHead(a, b[0]);
      SortedHead(b, a[0]);
      LessEqAntisymmetric(a[0], b[0]);
      var ta, tb := a[1..], b[1..];
      TailsSameElements(a, b);
      SortedTail(a);
      SortedTail(b);
      SortedUnique(ta, tb);
      assert a == [a[0]] + ta;
      assert b == [b[0]] + tb;
    }
  }

  /** `list.map(f)`. */
  function MapSeq<A, B>(s: seq<A>, f: A -> B): (r: seq<B>)
    ensures |r| == |s| && forall i :: 0 <= i < |s| ==> r[i] == f(s[i])
  {
    seq(|s|, i requires 0 <= i < |s| => f(s[i]))
  }

  /** Splitting a list around index `k` splits its elements. */
  lemma SplitAt<T>(s: seq<T>, k: int)
    requires 0 <= k < |s|
    ensures multiset(s) == multiset(s[..k] + s[k + 1..]) + multiset{s[k]}
  {
    assert s == s[..k] + [s[k]] + s[k + 1..];
  }

  lemma MapSplitAt<A, B>(s: seq<A>, k: int, f: A -> B)
    requires 0 <= k < |s|
    ensures multiset(MapSeq(s, f)) == multiset(MapSeq(s[..k] + s[k + 1..], f)) + multiset{f(s[k])}
  {
    var m := MapSeq(s, f);
    assert MapSeq(s[..k] + s[k + 1..], f) == m[..k] + m[k + 1..];
    SplitAt(m, k);
  }

  lemma CancelAdd<T>(a: multiset<T>, b: multiset<T>, y: T)
    requires a + multiset{y} == b + multiset{y}
    ensures a == b
  {
    assert a == (a + multiset{y}) - multiset{y};
    assert b == (b + multiset{y}) - multiset{y};
  }

  lemma FindIn<T>(s: seq<T>, x: T) returns (k: nat)
    requires x in multiset(s)
    ensures k < |s| && s[k] == x
  {
    assert x in s;
    k :| k < |s| && s[k] == x;
  }

  /** Mapping two permutations of each other gives two permutations. */
  lemma {:induction false} MapPermutation<A, B>(s1: seq<A>, s2: seq<A>, f: A -> B)
    requires multiset(s1) == multiset(s2)
    ensures multiset(MapSeq(s1, f)) == multiset(MapSeq(s2, f))
    decreases |s1|
  {
    if s1 != [] {
      var k := FindIn(s2, s1[0]);
      var rest1, rest2 := s1[..0] + s1[1..], s2[..k] + s2[k + 1..];
      SplitAt(s1, 0);
      SplitAt(s2, k);
      CancelAdd(multiset(rest1), multiset(rest2), s1[0]);
      MapPermutation(rest1, rest2, f);
      var common := multiset(MapSeq(rest1, f)) + multiset{f(s1[0])};
      assert multiset(MapSeq(s1, f)) == common by {
        MapSplitAt(s1, 0, f);
      }
      assert multiset(MapSeq(s2, f)) == common by {
        MapSplitAt(s2, k, f);
      }
    } else {
      assert |s2| == |multiset(s2)| == 0;
      assert MapSeq(s1, f) == [] && MapSeq(s2, f) == [];
    }
  }

  // ---------------------------------------------------------------- fingerprint

  /** A table as far as the fingerprint is concerned: its name and its
      fields, which the fingerprint ignores. */
  datatype TableInfo = TableInfo(name: string, fieldNames: seq<string>)
  datatype Endpoint = Endpoint(tableName: string, fieldNames: seq<string>, relation: string)
  /** A ref: `endpoints[0]` and `endpoints[1]`. */
  datatype Ref = Ref(first: Endpoint, second: Endpoint)

  datatype Print = Print(tableNames: seq<string>, enumNames: seq<string>, refsPairs: seq<string>)

  function TableNames(tables: seq<TableInfo>): (r: seq<string>)
    ensures |r| == |tables| && forall i :: 0 <= i < |r| ==> r[i] == tables[i].name
  {
    MapSeq(tables, (t: TableInfo) => t.name)
  }

  function RefPair(r: Ref): string {
    r.first.tableName + "->" + r.second.tableName
  }

  function RefPairs(refs: seq<Ref>): (r: seq<string>)
    ensures |r| == |refs| && forall i :: 0 <= i < |r| ==> r[i] == RefPair(refs[i])
  {
    MapSeq(refs, RefPair)
  }

  /** `computeStructureFingerprint`. */
  function StructureFingerprint(tables: seq<TableInfo>, refs: seq<Ref>, enumNames: seq<string>): (p: Print)
    ensures Sorted(p.tableNames) && Sorted(p.enumNames) && Sorted(p.refsPairs)
    ensures multiset(p.tableNames) == multiset(TableNames(tables))
    ensures multiset(p.enumNames) == multiset(enumNames)
    ensures multiset(p.refsPairs) == multiset(RefPairs(refs))
  {
    SortSorted(TableNames(tables));
    SortSorted(enumNames);
    SortSorted(RefPairs(refs));
    Print(Sort(TableNames(tables)), Sort(enumNames), Sort(RefPairs(refs)))
  }

  /** Two schemas share a fingerprint exactly when they have the same table
      names, the same enum names and the same ref pairs, counted with
      multiplicity and in any order. */
  lemma FingerprintIff(t1: seq<TableInfo>, r1: seq<Ref>, e1: seq<string>,
                       t2: seq<TableInfo>, r2: seq<Ref>, e2: seq<string>)
    ensures StructureFingerprint(t1, r1, e1) == StructureFingerprint(t2, r2, e2)
        <==> (&& multiset(TableNames(t1)) == multiset(TableNames(t2))
              && multiset(e1) == multiset(e2)
              && multiset(RefPairs(r1)) == multiset(RefPairs(r2)))
  {
    var p1 := StructureFingerprint(t1, r1, e1);
    var p2 := StructureFingerprint(t2, r2, e2);
    if multiset(TableNames(t1)) == multiset(TableNames(t2)) && multiset(e1) == multiset(e2)
       && multiset(RefPairs(r1)) == multiset(RefPairs(r2)) {
      SortedUnique(p1.tableNames, p2.tableNames);
      SortedUnique(p1.enumNames, p2.enumNames);
      SortedUnique(p1.refsPairs, p2.refsPairs);
    }
  }

  /** Reordering the tables, the enums or the refs leaves the fingerprint alone. */
  lemma ReorderInvariant(t1: seq<TableInfo>, r1: seq<Ref>, e1: seq<string>,
                         t2: seq<TableInfo>, r2: seq<Ref>, e2: seq<string>)
    requires multiset(t1) == multiset(t2) && multiset(r1) == multiset(r2) && multiset(e1) == multiset(e2)
    ensures StructureFingerprint(t1, r1, e1) == StructureFingerprint(t2, r2, e2)
  {
    MapPermutation(t1, t2, (t: TableInfo) => t.name);
    MapPermutation(r1, r2, RefPair);
    FingerprintIff(t1, r1, e1, t2, r2, e2);
  }

  /** Fields and the field names of refs play no part. */
  lemma IgnoresFields(t1: seq<TableInfo>, r1: seq<Ref>, t2: seq<TableInfo>, r2: seq<Ref>, e: seq<string>)
    requires |t1| == |t2| && forall i :: 0 <= i < |t1| ==> t1[i].name == t2[i].name
    requires |r1| == |r2|
    requires forall i :: 0 <= i < |r1| ==> r1[i].first.tableName == r2[i].first.tableName && r1[i].second.tableName == r2[i].second.tableName
    ensures StructureFingerprint(t1, r1, e) == StructureFingerprint(t2, r2, e)
  {
    assert TableNames(t1) == TableNames(t2);
    assert RefPairs(r1) == RefPairs(r2);
  }

  /** The pair text does not separate its two names: a table named `a->b`
      referring to `c` reads like `a` referring to `b->c`. */
  lemma PairsCanCollide()
    ensures RefPair(Ref(Endpoint("a->b", [], "1"), Endpoint("c", [], "*")))
         == RefPair(Ref(Endpoint("a", [], "1"), Endpoint("b->c", [], "*")))
  {
  }

  // ---------------------------------------------------------------- reset decision

  /** `lastFingerprint !== fingerprint && autoLayoutPref !== false`; an
      absent preference counts as consent. */
  predicate ShouldReset(last: Option<Print>, fp: Print, autoLayoutPref: Option<bool>) {
    last != Some(fp) && autoLayoutPref != Some(false)
  }

  /** The provider: the fingerprint it last saw (a static slot shared by
      every mount) and the two position stores it resets. */
  class PositionsProvider {
    const tableStore: TableCoords.TableCoordsStore
    const enumStore: EnumCoords.EnumCoordsStore
    var lastFingerprint: Option<Print>

    ghost predicate Valid()
      reads this, tableStore, enumStore
    {
      tableStore.Valid() && enumStore.Valid() && tableStore.base.storage != enumStore.base.storage
    }

    constructor (tableStore: TableCoords.TableCoordsStore, enumStore: EnumCoords.EnumCoordsStore)
      requires tableStore.Valid() && enumStore.Valid() && tableStore.base.storage != enumStore.base.storage
      ensures Valid() && lastFingerprint.None?
      ensures this.tableStore == tableStore && this.enumStore == enumStore
    {
      this.tableStore := tableStore;
      this.enumStore := enumStore;
      lastFingerprint := None;
    }

    /** The effect run on every new `tables`/`refs`/`enums`; the grid width,
        the sizing and the enum layout are those the layout helpers compute. */
    method OnStructure(tables: seq<TableInfo>, refs: seq<Ref>, enumNames: seq<string>,
                       autoLayoutPref: Option<bool>, cols: nat, sz: Sizing, enumLayout: Entries<XY>)
      returns (didReset: bool)
      requires Valid() && cols >= 1
      modifies this, tableStore, enumStore, tableStore.base.storage, enumStore.base.storage
      ensures Valid()
      ensures lastFingerprint == Some(StructureFingerprint(tables, refs, enumNames))
      ensures didReset == ShouldReset(old(lastFingerprint), StructureFingerprint(tables, refs, enumNames), autoLayoutPref)
      ensures didReset ==> tableStore.State() == CoordsStore.ResetSpec(TableCoords.StoreName, old(tableStore.State()),
                             TableNames(tables), Grid(TableNames(tables), cols, sz))
      ensures didReset ==> enumStore.State() == CoordsStore.ResetSpec(EnumCoords.StoreName, old(enumStore.State()),
                             enumNames, enumLayout)
      ensures !didReset ==> tableStore.State() == old(tableStore.State()) && enumStore.State() == old(enumStore.State())
    {
      var fp := StructureFingerprint(tables, refs, enumNames);
      didReset := false;
      if lastFingerprint != Some(fp) {
        if autoLayoutPref != Some(false) {
          tableStore.ResetPositions(TableNames(tables), cols, sz);
          enumStore.ResetPositions(enumNames, enumLayout);
          didReset := true;
        }
        lastFingerprint := Some(fp);
      }
    }
  }

  /** A skipped reset still records the fingerprint, so the same structure
      does not trigger a reset once the preference is switched back on. */
  lemma SkippedResetRemembered(last: Option<Print>, fp: Print)
    ensures !ShouldReset(Some(fp), fp, None)
    ensures last != Some(fp) ==> ShouldReset(last, fp, Some(true)) && !ShouldReset(last, fp, Some(false))
  {
  }
}
