/** `TableGroupsStore`: the table groups of the open document, an ordered map
    from group id to group, persisted per document under `tableGroups:<key>`.
    Every mutation that changes a group saves the whole map; upserts and
    deletes also emit `tableGroups:changed`. */
module TableGroups {
  import opened Common
  import opened JsMap
  import opened LocalStorage
  import opened Persistable

  /** `JSONTableGroup`, as a schema or a caller supplies it. */
  datatype JsonTableGroup = JsonTableGroup(
    id: string,
    name: string,
    color: Option<string>,
    tableNames: seq<string>,
    enumNames: Option<seq<string>>,
    x: Option<real>,
    y: Option<real>,
    width: Option<real>,
    height: Option<real>)

  /** `JSONTableGroup & GroupDimensions`, as the store keeps it. */
  datatype Group = Group(
    id: string,
    name: string,
    color: Option<string>,
    tableNames: seq<string>,
    enumNames: Option<seq<string>>,
    x: real,
    y: real,
    width: real,
    height: real)
  {
    function Box(): Box { Common.Box(x, y, width, height) }

    /** The group as a `JSONTableGroup` with every dimension present. */
    function ToJson(): JsonTableGroup {
      JsonTableGroup(id, name, color, tableNames, enumNames, Some(x), Some(y), Some(width), Some(height))
    }
  }

  /** `Partial<GroupDimensions>`: None for a field the caller leaves out. */
  datatype Dims = Dims(x: Option<real>, y: Option<real>, width: Option<real>, height: Option<real>)

  /** What the group store persists, `Array.from(map)` as `[id, group]`
      tuples; an array of bare group objects (the other shape a host may have
      written); or any value that is not an array. */
  datatype GroupsValue = GroupTuples(entries: Entries<Group>) | GroupObjects(groups: seq<JsonTableGroup>) | NotAnArray

  const StoreName: string := "tableGroups"
  const InitialStoreKey: string := "none"
  const DefaultWidth: real := 400.0
  const DefaultHeight: real := 300.0

  /** The state of the group store: its storage, its map, its current key and
      the number of `tableGroups:changed` events emitted so far. */
  datatype GroupsState = GroupsState(
    storage: StorageState<GroupsValue>,
    groups: Entries<Group>,
    key: string,
    changedEvents: nat)

  /** The geometry defaults of `setGroup`/`createGroup`: x, y, width and
      height default to 0, 0, 400 and 300; `enumNames` stays as given. */
  function WithDefaults(g: JsonTableGroup): Group {
    Group(g.id, g.name, g.color, g.tableNames, g.enumNames,
          g.x.GetOr(0.0), g.y.GetOr(0.0), g.width.GetOr(DefaultWidth), g.height.GetOr(DefaultHeight))
  }

  /** The entry `initGroups` stores: `WithDefaults`, and a missing `enumNames`
      becomes `[]`. */
  function InitEntry(g: JsonTableGroup): Group {
    WithDefaults(g).(enumNames := Some(g.enumNames.GetOr([])))
  }

  function InitEntries(gs: seq<JsonTableGroup>): (r: Entries<Group>)
    ensures |r| == |gs|
    ensures forall i :: 0 <= i < |gs| ==> r[i] == (gs[i].id, InitEntry(gs[i]))
  {
    if gs == [] then [] else [(gs[0].id, InitEntry(gs[0]))] + InitEntries(gs[1..])
  }

  /** `initGroups`: `clear()`, then one `set(group.id, …)` per group in order. */
  function InitGroupsSpec(gs: seq<JsonTableGroup>): Entries<Group> {
    FromEntries(InitEntries(gs))
  }

  /** How a retrieved array hydrates through `new Map(recovered)`. An array of
      bare objects yields no entry under any string id, modelled as empty. */
  function Hydrate(v: GroupsValue): Entries<Group>
    requires !v.NotAnArray?
  {
    if v.GroupTuples? then FromEntries(v.entries) else []
  }

  function SaveSpec(st: GroupsState): GroupsState {
    st.(storage := SetItemSpec(st.storage, PersistenceKey(StoreName, st.key), GroupTuples(st.groups)))
  }

  /** `switchTo`: save, move to the new key, hydrate from any stored array or
      else `initGroups(initialGroups)`. */
  function SwitchSpec(st: GroupsState, newKey: string, initial: seq<JsonTableGroup>): GroupsState {
    var st1 := SaveSpec(st).(key := newKey);
    var (s2, v) := GetItemSpec(st1.storage, PersistenceKey(StoreName, newKey));
    if v.Some? && !v.value.NotAnArray? then st1.(storage := s2, groups := Hydrate(v.value))
    else st1.(storage := s2, groups := InitGroupsSpec(initial))
  }

  /** `setGroupDimensions`: spread the supplied fields over an existing group. */
  function SetDimensionsSpec(st: GroupsState, id: string, d: Dims): GroupsState {
    match Get(st.groups, id)
    case None => st
    case Some(g) =>
      var g' := g.(x := d.x.GetOr(g.x), y := d.y.GetOr(g.y),
                   width := d.width.GetOr(g.width), height := d.height.GetOr(g.height));
      SaveSpec(st.(groups := Set(st.groups, id, g')))
  }

  function AddTableSpec(st: GroupsState, id: string, table: string): GroupsState {
    match Get(st.groups, id)
    case None => st
    case Some(g) =>
      if table in g.tableNames then st
      else SaveSpec(st.(groups := Set(st.groups, id, g.(tableNames := g.tableNames + [table]))))
  }

  function RemoveTableSpec(st: GroupsState, id: string, table: string): GroupsState {
    match Get(st.groups, id)
    case None => st
    case Some(g) => SaveSpec(st.(groups := Set(st.groups, id, g.(tableNames := Without(g.tableNames, table)))))
  }

  /** `setGroup` and `createGroup` (the two run the same code): upsert with
      geometry defaults, save, emit. */
  function UpsertSpec(st: GroupsState, g: JsonTableGroup): GroupsState {
    var st1 := SaveSpec(st.(groups := Set(st.groups, g.id, WithDefaults(g))));
    st1.(changedEvents := st1.changedEvents + 1)
  }

  function DeleteSpec(st: GroupsState, id: string): GroupsState {
    var st1 := SaveSpec(st.(groups := Delete(st.groups, id)));
    st1.(changedEvents := st1.changedEvents + 1)
  }

  function AddEnumSpec(st: GroupsState, id: string, enumName: string): GroupsState {
    match Get(st.groups, id)
    case None => st
    case Some(g) =>
      var names := g.enumNames.GetOr([]);
      if enumName in names then st
      else SaveSpec(st.(groups := Set(st.groups, id, g.(enumNames := Some(names + [enumName])))))
  }

  function RemoveEnumSpec(st: GroupsState, id: string, enumName: string): GroupsState {
    match Get(st.groups, id)
    case None => st
    case Some(g) =>
      if g.enumNames.None? then st
      else SaveSpec(st.(groups := Set(st.groups, id, g.(enumNames := Some(Without(g.enumNames.value, enumName))))))
  }

  /** `getTablesInGroup` / `getEnumsInGroup`: the list, or `[]`. */
  function TablesInGroup(groups: Entries<Group>, id: string): seq<string> {
    if Get(groups, id).Some? then Get(groups, id).value.tableNames else []
  }

  function EnumsInGroup(groups: Entries<Group>, id: string): seq<string> {
    if Get(groups, id).Some? then Get(groups, id).value.enumNames.GetOr([]) else []
  }

  /** `getGroups`: the groups in map order. */
  function Values(groups: Entries<Group>): (r: seq<Group>)
    ensures |r| == |groups| && forall i :: 0 <= i < |groups| ==> r[i] == groups[i].1
  {
    if groups == [] then [] else [groups[0].1] + Values(groups[1..])
  }

  /** The last group of the list with a given id. */
  function LastWithId(gs: seq<JsonTableGroup>, id: string): Option<JsonTableGroup> {
    if gs == [] then None
    else if gs[|gs| - 1].id == id then Some(gs[|gs| - 1])
    else LastWithId(gs[..|gs| - 1], id)
  }

  /** `initGroups` replaces the map wholesale: an id maps to the defaulted
      form of the last group carrying it, and no other id survives. */
  lemma {:induction false} InitGroupsGet(gs: seq<JsonTableGroup>, id: string)
    ensures Get(InitGroupsSpec(gs), id) ==
      if LastWithId(gs, id).Some? then Some(InitEntry(LastWithId(gs, id).value)) else None
  {
    GetFromEntries(InitEntries(gs), id);
    LastValueInit(gs, id);
  }

  lemma {:induction false} LastValueInit(gs: seq<JsonTableGroup>, id: string)
    ensures LastValue(InitEntries(gs), id) ==
      if LastWithId(gs, id).Some? then Some(InitEntry(LastWithId(gs, id).value)) else None
  {
    if gs != [] {
      var n := |gs| - 1;
      var s := InitEntries(gs);
      assert s[..n] == InitEntries(gs[..n]) by {
        var p := InitEntries(gs[..n]);
        assert forall i :: 0 <= i < n ==> s[..n][i] == p[i];
      }
      assert s[n] == (gs[n].id, InitEntry(gs[n]));
      LastValueInit(gs[..n], id);
    }
  }

  /** Upserting stores the defaulted group under its id, keeps every other
      group, saves the whole map and emits one change event. */
  lemma UpsertEffect(st: GroupsState, g: JsonTableGroup, other: string)
    requires Working(st.storage)
    ensures var st' := UpsertSpec(st, g);
      && Get(st'.groups, other) == (if other == g.id then Some(WithDefaults(g)) else Get(st.groups, other))
      && Holds(st'.storage, PersistenceKey(StoreName, st.key), GroupTuples(st'.groups))
      && st'.changedEvents == st.changedEvents + 1
  {
    GetSet(st.groups, g.id, WithDefaults(g), other);
    SetHolds(st.storage, PersistenceKey(StoreName, st.key), GroupTuples(Set(st.groups, g.id, WithDefaults(g))));
  }

  /** Deleting removes only that id, saves and emits. */
  lemma DeleteEffect(st: GroupsState, id: string, other: string)
    requires Working(st.storage)
    ensures var st' := DeleteSpec(st, id);
      && Get(st'.groups, other) == (if other == id then None else Get(st.groups, other))
      && Holds(st'.storage, PersistenceKey(StoreName, st.key), GroupTuples(st'.groups))
      && st'.changedEvents == st.changedEvents + 1
  {
    GetDelete(st.groups, id, other);
    SetHolds(st.storage, PersistenceKey(StoreName, st.key), GroupTuples(Delete(st.groups, id)));
  }

  /** Adding a table is idempotent, a no-op (nothing saved) for an unknown
      group or a member already present, and otherwise appends the name. */
  lemma AddTableEffect(st: GroupsState, id: string, table: string)
    ensures var st' := AddTableSpec(st, id, table);
      && AddTableSpec(st', id, table) == st'
      && (Get(st.groups, id).None? || table in Get(st.groups, id).value.tableNames ==> st' == st)
      && (Get(st.groups, id).Some? ==>
            TablesInGroup(st'.groups, id) ==
              if table in TablesInGroup(st.groups, id) then TablesInGroup(st.groups, id)
              else TablesInGroup(st.groups, id) + [table])
  {
    var r := Get(st.groups, id);
    if r.Some? && table !in r.value.tableNames {
      var g' := r.value.(tableNames := r.value.tableNames + [table]);
      GetSet(st.groups, id, g', id);
    }
  }

  /** Removing a table drops every occurrence and keeps the other names in
      order; it saves whenever the group exists. */
  lemma RemoveTableEffect(st: GroupsState, id: string, table: string)
    requires Working(st.storage)
    ensures var st' := RemoveTableSpec(st, id, table);
      && (Get(st.groups, id).None? ==> st' == st)
      && (Get(st.groups, id).Some? ==>
            && TablesInGroup(st'.groups, id) == Without(TablesInGroup(st.groups, id), table)
            && Holds(st'.storage, PersistenceKey(StoreName, st.key), GroupTuples(st'.groups)))
  {
    var r := Get(st.groups, id);
    if r.Some? {
      var g' := r.value.(tableNames := Without(r.value.tableNames, table));
      GetSet(st.groups, id, g', id);
      SetHolds(st.storage, PersistenceKey(StoreName, st.key), GroupTuples(Set(st.groups, id, g')));
    }
  }

  lemma {:induction false} WithoutAbsent(s: seq<string>, v: string)
    requires v !in s
    ensures Without(s, v) == s
  {
    if s != [] {
      WithoutAbsent(s[1..], v);
      assert s == [s[0]] + s[1..];
    }
  }

  lemma {:induction false} WithoutAppend(s: seq<string>, v: string)
    ensures Without(s + [v], v) == Without(s, v)
  {
    if s == [] {
      assert Without([v][1..], v) == [];
    } else {
      WithoutAppend(s[1..], v);
      assert (s + [v])[1..] == s[1..] + [v];
    }
  }

  /** Removing a table just added restores the group's table list. */
  lemma RemoveUndoesAdd(st: GroupsState, id: string, table: string)
    requires Get(st.groups, id).Some? && table !in TablesInGroup(st.groups, id)
    ensures TablesInGroup(RemoveTableSpec(AddTableSpec(st, id, table), id, table).groups, id) ==
            TablesInGroup(st.groups, id)
  {
    var g := Get(st.groups, id).value;
    var g' := g.(tableNames := g.tableNames + [table]);
    GetSet(st.groups, id, g', id);
    var st1 := AddTableSpec(st, id, table);
    var g'' := g'.(tableNames := Without(g'.tableNames, table));
    GetSet(st1.groups, id, g'', id);
    WithoutAppend(g.tableNames, table);
    WithoutAbsent(g.tableNames, table);
  }

  /** `addEnumToGroup` creates a missing `enumNames` list and is idempotent;
      `removeEnumFromGroup` is a no-op when the list is missing. */
  lemma EnumMembershipEffect(st: GroupsState, id: string, e: string)
    ensures var st' := AddEnumSpec(st, id, e);
      && AddEnumSpec(st', id, e) == st'
      && (Get(st.groups, id).Some? ==>
            Get(st'.groups, id).Some? && Get(st'.groups, id).value.enumNames.Some?
            && e in EnumsInGroup(st'.groups, id))
    ensures Get(st.groups, id).Some? && Get(st.groups, id).value.enumNames.None? ==> RemoveEnumSpec(st, id, e) == st
  {
    var r := Get(st.groups, id);
    if r.Some? && e !in r.value.enumNames.GetOr([]) {
      var g' := r.value.(enumNames := Some(r.value.enumNames.GetOr([]) + [e]));
      GetSet(st.groups, id, g', id);
    }
  }

  /** `setGroupDimensions` overwrites exactly the supplied fields of an
      existing group and does nothing for an unknown id. */
  lemma SetDimensionsEffect(st: GroupsState, id: string, d: Dims)
    ensures Get(st.groups, id).None? ==> SetDimensionsSpec(st, id, d) == st
    ensures Get(st.groups, id).Some? ==>
      var g := Get(st.groups, id).value;
      var g' := Get(SetDimensionsSpec(st, id, d).groups, id);
      && g'.Some?
      && g'.value.x == (if d.x.Some? then d.x.value else g.x)
      && g'.value.y == (if d.y.Some? then d.y.value else g.y)
      && g'.value.width == (if d.width.Some? then d.width.value else g.width)
      && g'.value.height == (if d.height.Some? then d.height.value else g.height)
      && g'.value.(x := g.x, y := g.y, width := g.width, height := g.height) == g
  {
    var r := Get(st.groups, id);
    if r.Some? {
      var g := r.value;
      var g' := g.(x := d.x.GetOr(g.x), y := d.y.GetOr(g.y),
                   width := d.width.GetOr(g.width), height := d.height.GetOr(g.height));
      GetSet(st.groups, id, g', id);
    }
  }

  /** `switchTo` always persists the outgoing map under the old key first. */
  lemma SwitchSavesOutgoing(st: GroupsState, newKey: string, initial: seq<JsonTableGroup>)
    requires Working(st.storage)
    ensures Holds(SwitchSpec(st, newKey, initial).storage, PersistenceKey(StoreName, st.key), GroupTuples(st.groups))
  {
    var k := PersistenceKey(StoreName, st.key);
    SetHolds(st.storage, k, GroupTuples(st.groups));
    HoldsAfterGet(SaveSpec(st).storage, k, GroupTuples(st.groups), PersistenceKey(StoreName, newKey));
  }

  /** Where neither layer has anything for the new key and the legacy rule
      does not apply, `switchTo` falls back to `initGroups(initialGroups)`. */
  lemma SwitchInitialises(st: GroupsState, newKey: string, initial: seq<JsonTableGroup>)
    requires newKey != st.key
    requires st.storage.snapshot.None?
    requires PersistenceKey(StoreName, newKey) !in st.storage.local
    ensures SwitchSpec(st, newKey, initial).groups == InitGroupsSpec(initial)
  {
    assert PersistenceKey(StoreName, newKey)[12..] == newKey;
    assert PersistenceKey(StoreName, st.key)[12..] == st.key;
  }

  /** The legacy path. With a host snapshot present, the first `switchTo`
      saves the startup map under `tableGroups:none`; from then on, every
      document whose key the snapshot lacks reads that value through the
      `tableGroups:none` fallback of `getItem`, and so hydrates to the map
      saved under `none` instead of initialising from its own groups. */
  lemma LegacyHydration(st: GroupsState, k1: string, init1: seq<JsonTableGroup>, k2: string, init2: seq<JsonTableGroup>)
    requires st.key == InitialStoreKey && NoDupKeys(st.groups)
    requires Working(st.storage) && st.storage.snapshot.Some?
    requires k1 != InitialStoreKey && PersistenceKey(StoreName, k1) !in st.storage.snapshot.value
    requires k2 != InitialStoreKey && k2 != k1 && PersistenceKey(StoreName, k2) !in st.storage.snapshot.value
    ensures SwitchSpec(st, k1, init1).groups == st.groups
    ensures SwitchSpec(SwitchSpec(st, k1, init1), k2, init2).groups == st.groups
  {
    var kNone := PersistenceKey(StoreName, InitialStoreKey);
    assert kNone == LegacyGroupsKey;
    var k1Key := PersistenceKey(StoreName, k1);
    var k2Key := PersistenceKey(StoreName, k2);
    assert k1Key[12..] == k1 && k2Key[12..] == k2 && kNone[12..] == InitialStoreKey;
    assert k1Key[..12] == GroupsPrefix && k2Key[..12] == GroupsPrefix;
    FromEntriesOfUnique(st.groups);
    // First switch: the save writes `none`, the read of k1 falls back to it.
    var s1 := SaveSpec(st).storage;
    assert LegacyApplies(s1, k1Key);
    var st1 := SwitchSpec(st, k1, init1);
    // Second switch: `none` is still held and k2 is still unseen.
    GetItemFrame(s1, k1Key);
    var s2 := SaveSpec(st1).storage;
    assert SnapshotAt(st1.storage, k2Key).None?;
    assert SnapshotAt(s2, kNone) == SnapshotAt(st1.storage, kNone) == Some(GroupTuples(st.groups));
    assert LegacyApplies(s2, k2Key);
  }

  /** Both storage layers hold the same at `k`. */
  predicate SameAt(a: StorageState<GroupsValue>, b: StorageState<GroupsValue>, k: string) {
    SnapshotAt(a, k) == SnapshotAt(b, k) && LocalAt(a, k) == LocalAt(b, k)
  }

  /** An edit of a group touches storage under the current document's key
      only: what every other document has saved stays as it was. */
  lemma EditsKeepOtherDocuments(st: GroupsState, id: string, name: string, k: string)
    requires k != PersistenceKey(StoreName, st.key)
    ensures SameAt(AddTableSpec(st, id, name).storage, st.storage, k)
    ensures SameAt(RemoveTableSpec(st, id, name).storage, st.storage, k)
    ensures SameAt(AddEnumSpec(st, id, name).storage, st.storage, k)
    ensures SameAt(RemoveEnumSpec(st, id, name).storage, st.storage, k)
  {
  }

  /** A switch away from a document key to a key the snapshot lacks reads
      the groups saved under `none` through the legacy fallback. */
  lemma SwitchReadsLegacy(st: GroupsState, g: Entries<Group>, k2: string, init2: seq<JsonTableGroup>)
    requires Working(st.storage) && st.storage.snapshot.Some? && NoDupKeys(g)
    requires st.key != InitialStoreKey && k2 != InitialStoreKey && k2 != st.key
    requires SnapshotAt(st.storage, LegacyGroupsKey) == Some(GroupTuples(g))
    requires SnapshotAt(st.storage, PersistenceKey(StoreName, k2)).None?
    ensures SwitchSpec(st, k2, init2).groups == g
  {
    var kNone := PersistenceKey(StoreName, InitialStoreKey);
    var kCur := PersistenceKey(StoreName, st.key);
    var k2Key := PersistenceKey(StoreName, k2);
    assert kNone == LegacyGroupsKey;
    assert kCur[12..] == st.key && k2Key[12..] == k2 && kNone[12..] == InitialStoreKey;
    assert k2Key[..12] == GroupsPrefix;
    FromEntriesOfUnique(g);
    var s3 := SaveSpec(st).storage;
    assert SnapshotAt(s3, kNone) == Some(GroupTuples(g));
    assert LegacyApplies(s3, k2Key);
  }

  /** The first switch of the legacy path keeps the startup groups under
      `none` and leaves other keys unseen. */
  lemma FirstLegacySwitch(st: GroupsState, k1: string, init1: seq<JsonTableGroup>, k2: string)
    requires st.key == InitialStoreKey
    requires Working(st.storage) && st.storage.snapshot.Some?
    requires k1 != InitialStoreKey && PersistenceKey(StoreName, k1) !in st.storage.snapshot.value
    requires k2 != InitialStoreKey && k2 != k1 && PersistenceKey(StoreName, k2) !in st.storage.snapshot.value
    ensures var st1 := SwitchSpec(st, k1, init1);
      && Working(st1.storage) && st1.storage.snapshot.Some? && st1.key == k1
      && SnapshotAt(st1.storage, LegacyGroupsKey) == Some(GroupTuples(st.groups))
      && SnapshotAt(st1.storage, PersistenceKey(StoreName, k2)).None?
  {
    var kNone := PersistenceKey(StoreName, InitialStoreKey);
    assert kNone == LegacyGroupsKey;
    var k1Key := PersistenceKey(StoreName, k1);
    var k2Key := PersistenceKey(StoreName, k2);
    assert k1Key[12..] == k1 && k2Key[12..] == k2 && kNone[12..] == InitialStoreKey;
    assert k1Key[..12] == GroupsPrefix;
    var s1 := SaveSpec(st).storage;
    assert LegacyApplies(s1, k1Key);
  }

  /** The legacy path with an edit in between: a table added to a group
      under the first document is saved under that document's key only, so
      the second document still opens with the groups saved under `none`. */
  lemma LegacyEditStaysLocal(st: GroupsState, k1: string, init1: seq<JsonTableGroup>, id: string, table: string,
                             k2: string, init2: seq<JsonTableGroup>)
    requires st.key == InitialStoreKey && NoDupKeys(st.groups)
    requires Working(st.storage) && st.storage.snapshot.Some?
    requires k1 != InitialStoreKey && PersistenceKey(StoreName, k1) !in st.storage.snapshot.value
    requires k2 != InitialStoreKey && k2 != k1 && PersistenceKey(StoreName, k2) !in st.storage.snapshot.value
    ensures SwitchSpec(AddTableSpec(SwitchSpec(st, k1, init1), id, table), k2, init2).groups == st.groups
  {
    FirstLegacySwitch(st, k1, init1, k2);
    var st1 := SwitchSpec(st, k1, init1);
    var k1Key := PersistenceKey(StoreName, k1);
    assert k1Key[12..] == k1;
    assert LegacyGroupsKey[12..] == InitialStoreKey;
    EditsKeepOtherDocuments(st1, id, table, LegacyGroupsKey);
    EditsKeepOtherDocuments(st1, id, table, PersistenceKey(StoreName, k2));
    SwitchReadsLegacy(AddTableSpec(st1, id, table), st.groups, k2, init2);
  }

  class TableGroupsStore {
    const base: PersistableStore<GroupsValue>
    var groups: Entries<Group>
    var currentStoreKey: string
    var changedEvents: nat

    /** The store's name, and the map's uniqueness of ids that `Map` keeps. */
    ghost predicate Valid()
      reads this
    {
      base.storeName == StoreName && NoDupKeys(groups)
    }

    function State(): GroupsState
      reads this, base.storage
    {
      GroupsState(base.storage.State(), groups, currentStoreKey, changedEvents)
    }

    constructor (storage: Option<AppLocalStorage<GroupsValue>>, window: StorageState<GroupsValue>)
      ensures Valid()
      ensures groups == [] && currentStoreKey == InitialStoreKey && changedEvents == 0
      ensures storage.Some? ==> base.storage == storage.value
      ensures storage.None? ==> fresh(base.storage) && base.storage.State() == window
    {
      base := new PersistableStore(StoreName, storage, window);
      groups := [];
      currentStoreKey := InitialStoreKey;
      changedEvents := 0;
    }

    method InitGroups(gs: seq<JsonTableGroup>)
      modifies this
      ensures groups == InitGroupsSpec(gs) && NoDupKeys(groups)
      ensures currentStoreKey == old(currentStoreKey) && changedEvents == old(changedEvents)
    {
      groups := [];
      var i := 0;
      while i < |gs|
        invariant 0 <= i <= |gs|
        invariant groups == FromEntries(InitEntries(gs[..i]))
        invariant currentStoreKey == old(currentStoreKey) && changedEvents == old(changedEvents)
      {
        var g := gs[i];
        assert InitEntries(gs[..i + 1]) == InitEntries(gs[..i]) + [(g.id, InitEntry(g))];
        assert InitEntries(gs[..i + 1])[..i] == InitEntries(gs[..i]);
        groups := Set(groups, g.id, Group(g.id, g.name, g.color, g.tableNames, Some(g.enumNames.GetOr([])),
                                          g.x.GetOr(0.0), g.y.GetOr(0.0), g.width.GetOr(DefaultWidth), g.height.GetOr(DefaultHeight)));
        i := i + 1;
      }
      assert gs[..|gs|] == gs;
      FromEntriesNoDup(InitEntries(gs));
    }

    method GetGroup(id: string) returns (g: Option<Group>)
      ensures g == Get(groups, id)
    {
      g := Get(groups, id);
    }

    method SaveCurrentStore()
      requires Valid()
      modifies base.storage
      ensures State() == SaveSpec(old(State()))
    {
      base.Persist(currentStoreKey, GroupTuples(groups));
    }

    method SwitchTo(newStoreKey: string, initialGroups: seq<JsonTableGroup>)
      requires Valid()
      modifies this, base.storage
      ensures Valid()
      ensures State() == SwitchSpec(old(State()), newStoreKey, initialGroups)
    {
      SaveCurrentStore();
      currentStoreKey := newStoreKey;
      var recoveredStore := base.Retrieve(currentStoreKey);
      if recoveredStore.None? || recoveredStore.value.NotAnArray? {
        InitGroups(initialGroups);
        return;
      }
      if recoveredStore.value.GroupTuples? {
        FromEntriesNoDup(recoveredStore.value.entries);
      }
      groups := Hydrate(recoveredStore.value);
    }

    method SetGroupDimensions(id: string, d: Dims)
      requires Valid()
      modifies this, base.storage
      ensures Valid()
      ensures State() == SetDimensionsSpec(old(State()), id, d)
    {
      var group := Get(groups, id);
      if group.Some? {
        var g := group.value;
        SetNoDup(groups, id, g.(x := d.x.GetOr(g.x), y := d.y.GetOr(g.y),
                                width := d.width.GetOr(g.width), height := d.height.GetOr(g.height)));
        groups := Set(groups, id, g.(x := d.x.GetOr(g.x), y := d.y.GetOr(g.y),
                                     width := d.width.GetOr(g.width), height := d.height.GetOr(g.height)));
        SaveCurrentStore();
      }
    }

    method AddTableToGroup(id: string, table: string)
      requires Valid()
      modifies this, base.storage
      ensures Valid()
      ensures State() == AddTableSpec(old(State()), id, table)
    {
      var group := Get(groups, id);
      if group.Some? && table !in group.value.tableNames {
        SetNoDup(groups, id, group.value.(tableNames := group.value.tableNames + [table]));
        groups := Set(groups, id, group.value.(tableNames := group.value.tableNames + [table]));
        SaveCurrentStore();
      }
    }

    method RemoveTableFromGroup(id: string, table: string)
      requires Valid()
      modifies this, base.storage
      ensures Valid()
      ensures State() == RemoveTableSpec(old(State()), id, table)
    {
      var group := Get(groups, id);
      if group.Some? {
        SetNoDup(groups, id, group.value.(tableNames := Without(group.value.tableNames, table)));
        groups := Set(groups, id, group.value.(tableNames := Without(group.value.tableNames, table)));
        SaveCurrentStore();
      }
    }

    method SetGroup(g: JsonTableGroup)
      requires Valid()
      modifies this, base.storage
      ensures Valid()
      ensures State() == UpsertSpec(old(State()), g)
    {
      SetNoDup(groups, g.id, WithDefaults(g));
      groups := Set(groups, g.id, WithDefaults(g));
      SaveCurrentStore();
      changedEvents := changedEvents + 1;
    }

    method CreateGroup(g: JsonTableGroup)
      requires Valid()
      modifies this, base.storage
      ensures Valid()
      ensures State() == UpsertSpec(old(State()), g)
    {
      SetNoDup(groups, g.id, WithDefaults(g));
      groups := Set(groups, g.id, WithDefaults(g));
      SaveCurrentStore();
      changedEvents := changedEvents + 1;
    }

    method DeleteGroup(id: string)
      requires Valid()
      modifies this, base.storage
      ensures Valid()
      ensures State() == DeleteSpec(old(State()), id)
    {
      DeleteNoDup(groups, id);
      groups := Delete(groups, id);
      SaveCurrentStore();
      changedEvents := changedEvents + 1;
    }

    method GetTablesInGroup(id: string) returns (names: seq<string>)
      ensures names == TablesInGroup(groups, id)
    {
      var group := Get(groups, id);
      names := if group.Some? then group.value.tableNames else [];
    }

    method GetEnumsInGroup(id: string) returns (names: seq<string>)
      ensures names == EnumsInGroup(groups, id)
    {
      var group := Get(groups, id);
      names := if group.Some? && group.value.enumNames.Some? then group.value.enumNames.value else [];
    }

    method AddEnumToGroup(id: string, enumName: string)
      requires Valid()
      modifies this, base.storage
      ensures Valid()
      ensures State() == AddEnumSpec(old(State()), id, enumName)
    {
      var group := Get(groups, id);
      if group.Some? {
        var names := if group.value.enumNames.None? then [] else group.value.enumNames.value;
        if enumName !in names {
          SetNoDup(groups, id, group.value.(enumNames := Some(names + [enumName])));
          groups := Set(groups, id, group.value.(enumNames := Some(names + [enumName])));
          SaveCurrentStore();
        }
      }
    }

    method RemoveEnumFromGroup(id: string, enumName: string)
      requires Valid()
      modifies this, base.storage
      ensures Valid()
      ensures State() == RemoveEnumSpec(old(State()), id, enumName)
    {
      var group := Get(groups, id);
      if group.Some? && group.value.enumNames.Some? {
        SetNoDup(groups, id, group.value.(enumNames := Some(Without(group.value.enumNames.value, enumName))));
        groups := Set(groups, id, group.value.(enumNames := Some(Without(group.value.enumNames.value, enumName))));
        SaveCurrentStore();
      }
    }

    method GetGroups() returns (gs: seq<Group>)
      ensures gs == Values(groups)
    {
      gs := [];
      var i := 0;
      while i < |groups|
        invariant 0 <= i <= |groups|
        invariant gs == Values(groups[..i])
      {
        assert gs + [groups[i].1] == Values(groups[..i + 1]) by {
          ValuesAppend(groups[..i], groups[i]);
          assert groups[..i + 1] == groups[..i] + [groups[i]];
        }
        gs := gs + [groups[i].1];
        i := i + 1;
      }
      assert groups[..|groups|] == groups;
    }

    /** The rule of the diagram's group layer: when the store is empty and the
        schema brings groups, initialise from them. */
    method InitIfEmpty(schemaGroups: seq<JsonTableGroup>)
      requires Valid()
      modifies this
      ensures Valid()
      ensures groups == if old(groups) == [] && schemaGroups != [] then InitGroupsSpec(schemaGroups) else old(groups)
      ensures currentStoreKey == old(currentStoreKey) && changedEvents == old(changedEvents)
    {
      if |groups| == 0 && |schemaGroups| > 0 {
        InitGroups(schemaGroups);
      }
    }
  }

  lemma ValuesAppend(m: Entries<Group>, e: (string, Group))
    ensures Values(m + [e]) == Values(m) + [e.1]
  {
  }
}
