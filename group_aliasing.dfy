/** The group store with object identity. The host snapshot keeps the very
    array it is given, not a copy: `setItem` stores the saved value by
    reference, the legacy fallback caches the `tableGroups:none` array under
    the key asked for, and `switchTo` builds its map over the array it reads
    back. So the live map and the snapshot entries saved or hydrated from it
    share group objects, and the edits that change a group object in place
    (`addTableToGroup`, `removeTableFromGroup`, `addEnumToGroup`,
    `removeEnumFromGroup`) reach every one of them. Group objects live here in
    a heap addressed by index. The snapshot is taken to be present and
    localStorage to work, and every stored value is an array this store wrote.
    `TableGroups` models the store as the saving code evidently intends, with
    each saved value a copy. */
module GroupAliasing {
  import opened Common
  import opened JsMap
  import opened LocalStorage
  import opened Persistable
  import TableGroups

  /** The address of a group object. */
  type Ref = nat

  /** The heap of group objects; the host snapshot, each entry an array of
      `[id, object]` pairs; localStorage, each entry a JSON copy; the live map;
      and the current store key. */
  datatype HeapState = HeapState(
    heap: seq<TableGroups.Group>,
    snapshot: map<string, Entries<Ref>>,
    local: map<string, Entries<TableGroups.Group>>,
    groups: Entries<Ref>,
    key: string)

  predicate RefsIn(heap: seq<TableGroups.Group>, es: Entries<Ref>) {
    forall i :: 0 <= i < |es| ==> es[i].1 < |heap|
  }

  /** Every address in the live map and in the snapshot is allocated. */
  predicate Valid(s: HeapState) {
    && RefsIn(s.heap, s.groups)
    && forall k :: k in s.snapshot ==> RefsIn(s.heap, s.snapshot[k])
  }

  /** The groups an array of pairs denotes once its objects are looked up. */
  function Resolve(heap: seq<TableGroups.Group>, es: Entries<Ref>): (r: Entries<TableGroups.Group>)
    requires RefsIn(heap, es)
    ensures |r| == |es|
    ensures forall i :: 0 <= i < |es| ==> r[i] == (es[i].0, heap[es[i].1])
  {
    if es == [] then [] else [(es[0].0, heap[es[0].1])] + Resolve(heap, es[1..])
  }

  function GroupsKey(key: string): string {
    PersistenceKey(TableGroups.StoreName, key)
  }

  lemma {:induction false} SetRefsIn(heap: seq<TableGroups.Group>, m: Entries<Ref>, k: string, r: Ref)
    requires RefsIn(heap, m) && r < |heap|
    ensures RefsIn(heap, Set(m, k, r))
  {
    if m != [] && m[0].0 != k {
      SetRefsIn(heap, m[1..], k, r);
    }
  }

  lemma {:induction false} FromEntriesRefsIn(heap: seq<TableGroups.Group>, es: Entries<Ref>)
    requires RefsIn(heap, es)
    ensures RefsIn(heap, FromEntries(es))
  {
    if es != [] {
      FromEntriesRefsIn(heap, es[..|es| - 1]);
      SetRefsIn(heap, FromEntries(es[..|es| - 1]), es[|es| - 1].0, es[|es| - 1].1);
    }
  }

  /** `saveCurrentStore`: the snapshot keeps the live pairs themselves, while
      localStorage keeps a JSON copy of the groups. */
  function Save(s: HeapState): (r: HeapState)
    requires Valid(s)
    ensures Valid(r) && r.heap == s.heap && r.groups == s.groups && r.key == s.key
    ensures r.snapshot == s.snapshot[GroupsKey(s.key) := s.groups]
    ensures r.local == s.local[GroupsKey(s.key) := Resolve(s.heap, s.groups)]
  {
    s.(snapshot := s.snapshot[GroupsKey(s.key) := s.groups],
       local := s.local[GroupsKey(s.key) := Resolve(s.heap, s.groups)])
  }

  /** Fresh objects for the groups of `es`, placed after the heap. */
  function Alloc(heap: seq<TableGroups.Group>, es: Entries<TableGroups.Group>): (r: (seq<TableGroups.Group>, Entries<Ref>))
    ensures |r.0| == |heap| + |es| && r.0[..|heap|] == heap
    ensures |r.1| == |es| && RefsIn(r.0, r.1)
    ensures forall i :: 0 <= i < |es| ==> r.1[i] == (es[i].0, |heap| + i) && r.0[|heap| + i] == es[i].1
  {
    (heap + seq(|es|, i requires 0 <= i < |es| => es[i].1),
     seq(|es|, i requires 0 <= i < |es| => (es[i].0, |heap| + i)))
  }

  /** `getItem` on a group key: a snapshot hit returns the stored array; the
      legacy fallback returns the `tableGroups:none` array and caches that
      same array under the key; a localStorage hit is parsed into fresh
      objects, which the snapshot then caches. */
  function Read(s: HeapState, k: string): (r: (HeapState, Option<Entries<Ref>>))
    requires Valid(s)
    ensures Valid(r.0) && r.0.groups == s.groups && r.0.key == s.key && r.0.local == s.local
    ensures r.1.Some? ==> RefsIn(r.0.heap, r.1.value)
  {
    if k in s.snapshot then (s, Some(s.snapshot[k]))
    else if StartsWith(k, GroupsPrefix) && LegacyGroupsKey in s.snapshot then
      var legacy := s.snapshot[LegacyGroupsKey];
      (s.(snapshot := s.snapshot[k := legacy]), Some(legacy))
    else if k in s.local then
      var (heap, refs) := Alloc(s.heap, s.local[k]);
      (s.(heap := heap, snapshot := s.snapshot[k := refs]), Some(refs))
    else (s, None)
  }

  /** `switchTo`: save, move to the new key, and build the map over the array
      read back, or over fresh objects from `initGroups(initialGroups)`. */
  function Switch(s: HeapState, newKey: string, initial: seq<TableGroups.JsonTableGroup>): (r: HeapState)
    requires Valid(s)
    ensures Valid(r) && r.key == newKey
  {
    var (s2, v) := Read(Save(s).(key := newKey), GroupsKey(newKey));
    if v.Some? then
      FromEntriesRefsIn(s2.heap, v.value);
      s2.(groups := FromEntries(v.value))
    else
      var (heap, refs) := Alloc(s2.heap, TableGroups.InitEntries(initial));
      FromEntriesRefsIn(heap, refs);
      s2.(heap := heap, groups := FromEntries(refs))
  }

  /** Changes the object at `r` in place and saves. */
  function EditAndSave(s: HeapState, r: Ref, g: TableGroups.Group): (s': HeapState)
    requires Valid(s) && r < |s.heap|
    ensures Valid(s') && s'.heap == s.heap[r := g]
  {
    Save(s.(heap := s.heap[r := g]))
  }

  /** The object the live map holds under `id`. */
  function Lookup(s: HeapState, id: string): (r: Option<Ref>)
    requires Valid(s)
    ensures r.Some? ==> r.value < |s.heap|
  {
    Get(s.groups, id)
  }

  /** `addTableToGroup`: `push` onto the object's own list. */
  function AddTable(s: HeapState, id: string, table: string): (r: HeapState)
    requires Valid(s)
    ensures Valid(r)
  {
    match Lookup(s, id)
    case None => s
    case Some(p) =>
      var g := s.heap[p];
      if table in g.tableNames then s
      else EditAndSave(s, p, g.(tableNames := g.tableNames + [table]))
  }

  /** `removeTableFromGroup`: a filtered list assigned to the object. */
  function RemoveTable(s: HeapState, id: string, table: string): (r: HeapState)
    requires Valid(s)
    ensures Valid(r)
  {
    match Lookup(s, id)
    case None => s
    case Some(p) =>
      var g := s.heap[p];
      EditAndSave(s, p, g.(tableNames := Without(g.tableNames, table)))
  }

  /** `addEnumToGroup`: a missing list is created on the object, then pushed to. */
  function AddEnum(s: HeapState, id: string, enumName: string): (r: HeapState)
    requires Valid(s)
    ensures Valid(r)
  {
    match Lookup(s, id)
    case None => s
    case Some(p) =>
      var g := s.heap[p];
      var names := g.enumNames.GetOr([]);
      if enumName in names then s
      else EditAndSave(s, p, g.(enumNames := Some(names + [enumName])))
  }

  /** `removeEnumFromGroup`: a filtered list assigned to the object. */
  function RemoveEnum(s: HeapState, id: string, enumName: string): (r: HeapState)
    requires Valid(s)
    ensures Valid(r)
  {
    match Lookup(s, id)
    case None => s
    case Some(p) =>
      var g := s.heap[p];
      if g.enumNames.None? then s
      else EditAndSave(s, p, g.(enumNames := Some(Without(g.enumNames.value, enumName))))
  }

  /** Any in-place edit reaches every other document whose snapshot entry
      holds the edited object: the entry is the same array, and the group it
      denotes at that slot is the edited one. */
  lemma EditReachesOtherKeys(s: HeapState, p: Ref, g: TableGroups.Group, k: string, i: nat)
    requires Valid(s) && p < |s.heap| && k != GroupsKey(s.key)
    requires k in s.snapshot && i < |s.snapshot[k]| && s.snapshot[k][i].1 == p
    ensures var s' := EditAndSave(s, p, g);
      && k in s'.snapshot && s'.snapshot[k] == s.snapshot[k]
      && Resolve(s'.heap, s'.snapshot[k])[i] == (s.snapshot[k][i].0, g)
      && (k in s.local ==> k in s'.local && s'.local[k] == s.local[k])
  {
  }

  /** An edit of the current document also rewrites what another document's
      snapshot entry denotes whenever that entry holds the edited object: the
      stored array is the same, the object it points at is not, and the
      JSON copy in localStorage no longer matches it. */
  lemma AddTableReachesOtherKeys(s: HeapState, id: string, table: string, k: string, i: nat)
    requires Valid(s) && k != GroupsKey(s.key)
    requires Lookup(s, id).Some? && table !in s.heap[Lookup(s, id).value].tableNames
    requires k in s.snapshot && i < |s.snapshot[k]| && s.snapshot[k][i].1 == Lookup(s, id).value
    ensures var s' := AddTable(s, id, table);
      && k in s'.snapshot && s'.snapshot[k] == s.snapshot[k]
      && Resolve(s'.heap, s'.snapshot[k])[i].1.tableNames ==
           Resolve(s.heap, s.snapshot[k])[i].1.tableNames + [table]
      && (k in s.local ==> k in s'.local && s'.local[k] == s.local[k])
  {
    var p := Lookup(s, id).value;
    var s' := AddTable(s, id, table);
    assert s'.heap[p] == s.heap[p].(tableNames := s.heap[p].tableNames + [table]);
  }

  /** The same for removal: the object's list is replaced under every
      document that shares it. */
  lemma RemoveTableReachesOtherKeys(s: HeapState, id: string, table: string, k: string, i: nat)
    requires Valid(s) && k != GroupsKey(s.key)
    requires Lookup(s, id).Some?
    requires k in s.snapshot && i < |s.snapshot[k]| && s.snapshot[k][i].1 == Lookup(s, id).value
    ensures var s' := RemoveTable(s, id, table);
      && k in s'.snapshot && s'.snapshot[k] == s.snapshot[k]
      && Resolve(s'.heap, s'.snapshot[k])[i].1.tableNames ==
           Without(Resolve(s.heap, s.snapshot[k])[i].1.tableNames, table)
      && (k in s.local ==> k in s'.local && s'.local[k] == s.local[k])
  {
    var p := Lookup(s, id).value;
    var s' := RemoveTable(s, id, table);
    assert s'.heap[p] == s.heap[p].(tableNames := Without(s.heap[p].tableNames, table));
  }

  /** The startup group `g1` with tables `[a]`, under key `none`, and an empty
      host snapshot. */
  function StartGroup(): TableGroups.Group {
    TableGroups.Group("g1", "G", None, ["a"], Some([]), 0.0, 0.0, 400.0, 300.0)
  }

  function StartState(): (s: HeapState)
    ensures Valid(s)
  {
    HeapState([StartGroup()], map[], map[], [("g1", 0)], TableGroups.InitialStoreKey)
  }

  /** The first `switchTo(k1)` saves the startup pairs under `none`, and the
      read of `k1` falls back to that same array. */
  lemma FirstSwitch()
    ensures var s1 := Switch(StartState(), "k1", []);
      && s1.heap == [StartGroup()] && s1.groups == [("g1", 0)]
      && LegacyGroupsKey in s1.snapshot && s1.snapshot[LegacyGroupsKey] == [("g1", 0)]
      && GroupsKey("k2") !in s1.snapshot
      && LegacyGroupsKey in s1.local && s1.local[LegacyGroupsKey] == [("g1", StartGroup())]
  {
    var s0 := StartState();
    assert GroupsKey(s0.key) == LegacyGroupsKey;
    var k1 := GroupsKey("k1");
    assert StartsWith(k1, GroupsPrefix) && k1 != LegacyGroupsKey;
    assert k1 == "tableGroups:k1" && GroupsKey("k2") == "tableGroups:k2";
    var pairs: Entries<Ref> := [("g1", 0)];
    assert FromEntries(pairs) == pairs by {
      assert pairs[..0] == [];
    }
  }

  /** `addTableToGroup(g1, b)` under `k1` changes the one object, and so the
      groups the `none` array denotes, while its JSON copy stays `[a]`. */
  lemma EditUnderK1(s1: HeapState)
    requires Valid(s1) && s1.key == "k1"
    requires s1.heap == [StartGroup()] && s1.groups == [("g1", 0)]
    requires LegacyGroupsKey in s1.snapshot && s1.snapshot[LegacyGroupsKey] == [("g1", 0)]
    requires GroupsKey("k2") !in s1.snapshot && LegacyGroupsKey in s1.local
    ensures var s2 := AddTable(s1, "g1", "b");
      && s2.heap == [StartGroup().(tableNames := ["a", "b"])] && s2.key == "k1"
      && LegacyGroupsKey in s2.snapshot && s2.snapshot[LegacyGroupsKey] == [("g1", 0)]
      && GroupsKey("k2") !in s2.snapshot
      && LegacyGroupsKey in s2.local && s2.local[LegacyGroupsKey] == s1.local[LegacyGroupsKey]
  {
    assert GroupsKey("k1") == "tableGroups:k1" && GroupsKey("k2") == "tableGroups:k2";
    assert Lookup(s1, "g1") == Some(0);
    assert "b" !in s1.heap[0].tableNames;
    assert s1.heap[0].tableNames + ["b"] == ["a", "b"];
  }

  /** `switchTo(k2)` falls back to the `none` array again and hydrates over
      the edited object. */
  lemma SecondSwitch(s2: HeapState)
    requires Valid(s2) && s2.key == "k1"
    requires |s2.heap| == 1
    requires LegacyGroupsKey in s2.snapshot && s2.snapshot[LegacyGroupsKey] == [("g1", 0)]
    requires GroupsKey("k2") !in s2.snapshot && LegacyGroupsKey in s2.local
    ensures var s3 := Switch(s2, "k2", []);
      && s3.heap == s2.heap && s3.groups == [("g1", 0)]
      && LegacyGroupsKey in s3.snapshot && s3.snapshot[LegacyGroupsKey] == [("g1", 0)]
      && LegacyGroupsKey in s3.local && s3.local[LegacyGroupsKey] == s2.local[LegacyGroupsKey]
  {
    var k2 := GroupsKey("k2");
    assert StartsWith(k2, GroupsPrefix);
    assert GroupsKey("k1") == "tableGroups:k1" && k2 == "tableGroups:k2";
    var pairs: Entries<Ref> := [("g1", 0)];
    assert FromEntries(pairs) == pairs by {
      assert pairs[..0] == [];
    }
  }

  /** `switchTo(k1)`, `addTableToGroup(g1, b)`, `switchTo(k2)`. Both switches
      reach the legacy `tableGroups:none` array, so document `k2` opens with
      the table added under `k1`, and the groups saved for `none` gain it
      without being saved again; their JSON copy in localStorage keeps `[a]`.
      With each saved value a copy, `k2` opens with `[a]`
      (`TableGroups.LegacyEditStaysLocal`). */
  lemma LegacyEditLeaks()
    ensures var s3 := Switch(AddTable(Switch(StartState(), "k1", []), "g1", "b"), "k2", []);
      && Resolve(s3.heap, s3.groups) == [("g1", StartGroup().(tableNames := ["a", "b"]))]
      && LegacyGroupsKey in s3.snapshot
      && Resolve(s3.heap, s3.snapshot[LegacyGroupsKey]) == [("g1", StartGroup().(tableNames := ["a", "b"]))]
      && s3.local[LegacyGroupsKey] == [("g1", StartGroup())]
  {
    var s1 := Switch(StartState(), "k1", []);
    FirstSwitch();
    var s2 := AddTable(s1, "g1", "b");
    EditUnderK1(s1);
    SecondSwitch(s2);
  }
}
