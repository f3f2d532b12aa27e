/** `useSchema`: the webview's handler of the host's `setSchema` message.
    A message switches the three per-document stores to its document key
    (as written, even when that key is already current; see `SyncSpec`), the group store being offered the groups already persisted
    for the key in preference to the schema's own; every accepted message then
    installs its schema. Unmounting saves the three stores. */
module SchemaSync {
  import opened Common
  import opened JsMap
  import opened LocalStorage
  import opened Persistable
  import CoordsStore
  import TableCoords
  import EnumCoords
  import TableGroups
  import opened TablesGrid

  /** The part of a `JSONTableSchema` the switch reads; the refs feed only
      the layout, whose results arrive as parameters. */
  datatype SchemaPayload = SchemaPayload(
    tables: seq<string>,
    enums: Option<seq<string>>,
    groups: Option<seq<TableGroups.JsonTableGroup>>)

  /** A window message: its `type`, its `key`, and its payload when that is
      an object (None for any other payload). */
  datatype Message = Message(msgType: string, key: string, payload: Option<SchemaPayload>)

  const SetSchemaType: string := "setSchema"

  datatype SyncState = SyncState(
    tables: CoordsStore.StoreState,
    enums: CoordsStore.StoreState,
    groups: TableGroups.GroupsState,
    schemaKey: Option<string>,
    schema: Option<SchemaPayload>)

  /** The groups of a tuple-shaped persisted array: slot 1 of every entry. */
  function TupleGroups(e: Entries<TableGroups.Group>): (r: seq<TableGroups.JsonTableGroup>)
    ensures |r| == |e|
    ensures forall i :: 0 <= i < |e| ==> r[i] == e[i].1.ToJson()
  {
    if e == [] then [] else [e[0].1.ToJson()] + TupleGroups(e[1..])
  }

  /** The normalisation of `persistedData[groupsKey] ?? []`: a value that is
      not an array gives `[]`; an array of `[id, group]` tuples gives its
      groups; an array of group objects is used as it is. */
  function NormalisePersisted(v: Option<TableGroups.GroupsValue>): seq<TableGroups.JsonTableGroup> {
    match v
    case None => []
    case Some(NotAnArray) => []
    case Some(GroupTuples(e)) => TupleGroups(e)
    case Some(GroupObjects(gs)) => gs
  }

  /** `groupsToUse`: non-empty persisted groups, else the payload's, else `[]`. */
  function GroupsToUse(persisted: seq<TableGroups.JsonTableGroup>, payload: Option<seq<TableGroups.JsonTableGroup>>)
    : seq<TableGroups.JsonTableGroup>
  {
    if |persisted| > 0 then persisted else payload.GetOr([])
  }

  /** The key `useSchema` reads the persisted groups under. */
  function GroupsKey(key: string): string {
    PersistenceKey(TableGroups.StoreName, key)
  }

  /** The whole effect of one message, `seenKey` being the value of
      `schemaKey` the listener compares the message key with. `cols` and `sz`
      drive the grid layout of the table store; `enumLayout` is the layout
      offered to the enum store. */
  function SyncWith(s: SyncState, seenKey: Option<string>, m: Message, cols: nat, sz: Sizing, enumLayout: Entries<XY>): SyncState
    requires cols >= 1
  {
    if !(m.msgType == SetSchemaType && m.payload.Some?) then s
    else
      var p := m.payload.value;
      var s1 :=
        if Some(m.key) != seenKey then
          var persisted := NormalisePersisted(SnapshotAt(s.groups.storage, GroupsKey(m.key)));
          s.(tables := CoordsStore.SwitchSpec(TableCoords.StoreName, s.tables, m.key, p.tables, Grid(p.tables, cols, sz)),
             enums := CoordsStore.SwitchSpec(EnumCoords.StoreName, s.enums, m.key, p.enums.GetOr([]), enumLayout),
             groups := TableGroups.SwitchSpec(s.groups, m.key, GroupsToUse(persisted, p.groups)),
             schemaKey := Some(m.key))
        else s;
      s1.(schema := Some(p))
  }

  /** The handler as written. It is registered once, by an effect without
      dependencies, so the `schemaKey` it closes over is the first render's
      `null` for good: every accepted message switches the stores, even one
      for the key already current. */
  function SyncSpec(s: SyncState, m: Message, cols: nat, sz: Sizing, enumLayout: Entries<XY>): SyncState
    requires cols >= 1
  {
    SyncWith(s, None, m, cols, sz, enumLayout)
  }

  /** The handler as its key test evidently intends: the message key is
      compared with the key the stores were last switched to. */
  function IntendedSyncSpec(s: SyncState, m: Message, cols: nat, sz: Sizing, enumLayout: Entries<XY>): SyncState
    requires cols >= 1
  {
    SyncWith(s, s.schemaKey, m, cols, sz, enumLayout)
  }

  /** As written, delivering the same message again switches the stores
      again. Where localStorage fails and there is no host snapshot, the save
      is lost and the read is null, so the group store is initialised from the
      payload once more: a group created since the first delivery is gone.
      The intended handler keeps it. */
  lemma RedeliveryDropsNewGroup(s: SyncState, m: Message, cols: nat, sz: Sizing, enumLayout: Entries<XY>,
                                g: TableGroups.JsonTableGroup)
    requires cols >= 1 && m.msgType == SetSchemaType && m.payload.Some?
    requires m.payload.value.groups.GetOr([]) == []
    requires s.groups.storage.snapshot.None? && !s.groups.storage.localAvailable && !s.groups.storage.localWritable
    ensures var s1 := SyncSpec(s, m, cols, sz, enumLayout);
      var edited := s1.(groups := TableGroups.UpsertSpec(s1.groups, g));
      && Get(edited.groups.groups, g.id).Some?
      && SyncSpec(edited, m, cols, sz, enumLayout).groups.groups == []
      && IntendedSyncSpec(edited, m, cols, sz, enumLayout).groups == edited.groups
  {
    var s1 := SyncSpec(s, m, cols, sz, enumLayout);
    assert s1.groups.groups == [];
    GetSet(s1.groups.groups, g.id, TableGroups.WithDefaults(g), g.id);
  }

  /** Under the intended handler, delivering the same message twice has the
      effect of delivering it once: the second delivery finds its key current
      and only reinstalls the schema. */
  lemma MessageIdempotent(s: SyncState, m: Message, cols: nat, sz: Sizing, enumLayout: Entries<XY>)
    requires cols >= 1
    ensures IntendedSyncSpec(IntendedSyncSpec(s, m, cols, sz, enumLayout), m, cols, sz, enumLayout)
         == IntendedSyncSpec(s, m, cols, sz, enumLayout)
  {
  }

  /** Under the intended handler, a message for the current key leaves all
      three stores as they are. */
  lemma SameKeyKeepsStores(s: SyncState, m: Message, cols: nat, sz: Sizing, enumLayout: Entries<XY>)
    requires cols >= 1 && s.schemaKey == Some(m.key)
    ensures var s' := IntendedSyncSpec(s, m, cols, sz, enumLayout);
      s'.tables == s.tables && s'.enums == s.enums && s'.groups == s.groups && s'.schemaKey == s.schemaKey
      && s'.schema == (if m.msgType == SetSchemaType && m.payload.Some? then m.payload else s.schema)
  {
  }

  /** Non-empty tuple-shaped groups persisted under the new key win: the group
      store hydrates to exactly that map, whatever groups the payload brings. */
  lemma PersistedGroupsWin(s: SyncState, m: Message, cols: nat, sz: Sizing, enumLayout: Entries<XY>,
                           stored: Entries<TableGroups.Group>)
    requires cols >= 1 && m.msgType == SetSchemaType && m.payload.Some?
    requires m.key != s.groups.key
    requires NoDupKeys(stored)
    requires SnapshotAt(s.groups.storage, GroupsKey(m.key)) == Some(TableGroups.GroupTuples(stored))
    ensures SyncSpec(s, m, cols, sz, enumLayout).groups.groups == stored
  {
    var st := s.groups;
    var k := GroupsKey(m.key);
    var kOld := GroupsKey(st.key);
    assert k[12..] == m.key && kOld[12..] == st.key;
    var s1 := TableGroups.SaveSpec(st).storage;
    assert SnapshotAt(s1, k) == Some(TableGroups.GroupTuples(stored));
    FromEntriesOfUnique(stored);
  }

  /** Without a host snapshot and with nothing in localStorage for the new
      key, the group store is initialised from the payload's groups. */
  lemma PayloadGroupsWithoutSnapshot(s: SyncState, m: Message, cols: nat, sz: Sizing, enumLayout: Entries<XY>)
    requires cols >= 1 && m.msgType == SetSchemaType && m.payload.Some?
    requires m.key != s.groups.key
    requires s.groups.storage.snapshot.None? && GroupsKey(m.key) !in s.groups.storage.local
    ensures SyncSpec(s, m, cols, sz, enumLayout).groups.groups ==
            TableGroups.InitGroupsSpec(m.payload.value.groups.GetOr([]))
  {
    TableGroups.SwitchInitialises(s.groups, m.key, m.payload.value.groups.GetOr([]));
  }

  /** A switch persists the outgoing maps of all three stores under the old
      keys, given working localStorage. */
  lemma SwitchSavesAllStores(s: SyncState, m: Message, cols: nat, sz: Sizing, enumLayout: Entries<XY>)
    requires cols >= 1 && m.msgType == SetSchemaType && m.payload.Some?
    requires Working(s.tables.storage) && Working(s.enums.storage) && Working(s.groups.storage)
    ensures var s' := SyncSpec(s, m, cols, sz, enumLayout);
      && Holds(s'.tables.storage, PersistenceKey(TableCoords.StoreName, s.tables.key), CoordsStore.CoordArray(s.tables.coords))
      && Holds(s'.enums.storage, PersistenceKey(EnumCoords.StoreName, s.enums.key), CoordsStore.CoordArray(s.enums.coords))
      && Holds(s'.groups.storage, PersistenceKey(TableGroups.StoreName, s.groups.key), TableGroups.GroupTuples(s.groups.groups))
      && s'.tables.key == m.key && s'.enums.key == m.key && s'.groups.key == m.key && s'.schemaKey == Some(m.key)
  {
    var p := m.payload.value;
    CoordsStore.SwitchSavesOutgoing(TableCoords.StoreName, s.tables, m.key, p.tables, Grid(p.tables, cols, sz));
    CoordsStore.SwitchSavesOutgoing(EnumCoords.StoreName, s.enums, m.key, p.enums.GetOr([]), enumLayout);
    var persisted := NormalisePersisted(SnapshotAt(s.groups.storage, GroupsKey(m.key)));
    TableGroups.SwitchSavesOutgoing(s.groups, m.key, GroupsToUse(persisted, p.groups));
  }

  /** The webview's schema state together with the three stores it switches. */
  class SchemaView {
    const tableStore: TableCoords.TableCoordsStore
    const enumStore: EnumCoords.EnumCoordsStore
    const groupStore: TableGroups.TableGroupsStore
    /** The `schemaKey` the registered listener closes over: the first
        render's `null`, which no later render replaces. */
    const listenerKey: Option<string>
    var schemaKey: Option<string>
    var schema: Option<SchemaPayload>

    ghost predicate Valid()
      reads this, tableStore, enumStore, groupStore
    {
      && listenerKey.None?
      && tableStore.Valid() && enumStore.Valid() && groupStore.Valid()
      && tableStore.base.storage != enumStore.base.storage
    }

    function State(): SyncState
      reads this, tableStore, enumStore, groupStore
      reads tableStore.base.storage, enumStore.base.storage, groupStore.base.storage
    {
      SyncState(tableStore.State(), enumStore.State(), groupStore.State(), schemaKey, schema)
    }

    constructor (tableStore: TableCoords.TableCoordsStore, enumStore: EnumCoords.EnumCoordsStore,
                 groupStore: TableGroups.TableGroupsStore)
      requires tableStore.Valid() && enumStore.Valid() && groupStore.Valid()
      requires tableStore.base.storage != enumStore.base.storage
      ensures Valid() && schemaKey.None? && schema.None?
      ensures this.tableStore == tableStore && this.enumStore == enumStore && this.groupStore == groupStore
    {
      this.tableStore := tableStore;
      this.enumStore := enumStore;
      this.groupStore := groupStore;
      listenerKey := None;
      schemaKey := None;
      schema := None;
    }

    /** The `updater` listener, without its acknowledgement to the host. It
        compares the message key with the key its closure captured. */
    method HandleMessage(m: Message, cols: nat, sz: Sizing, enumLayout: Entries<XY>)
      requires Valid() && cols >= 1
      modifies this, tableStore, enumStore, groupStore
      modifies tableStore.base.storage, enumStore.base.storage, groupStore.base.storage
      ensures Valid()
      ensures State() == SyncSpec(old(State()), m, cols, sz, enumLayout)
    {
      if !(m.msgType == SetSchemaType && m.payload.Some?) {
        return;
      }
      var p := m.payload.value;
      if Some(m.key) != listenerKey {
        var persistedGroups := NormalisePersisted(SnapshotAt(groupStore.base.storage.State(), GroupsKey(m.key)));
        tableStore.SwitchTo(m.key, p.tables, cols, sz);
        enumStore.SwitchTo(m.key, p.enums.GetOr([]), enumLayout);
        var groupsToUse := if |persistedGroups| > 0 then persistedGroups else p.groups.GetOr([]);
        groupStore.SwitchTo(m.key, groupsToUse);
        schemaKey := Some(m.key);
      }
      schema := Some(p);
    }

    /** The listener's cleanup: save the three stores under their current keys. */
    method Unmount()
      requires Valid()
      modifies tableStore.base.storage, enumStore.base.storage, groupStore.base.storage
      ensures tableStore.State() == CoordsStore.SaveSpec(TableCoords.StoreName, old(tableStore.State()))
      ensures enumStore.State() == CoordsStore.SaveSpec(EnumCoords.StoreName, old(enumStore.State()))
      ensures groupStore.State() == TableGroups.SaveSpec(old(groupStore.State()))
    {
      tableStore.SaveCurrentStore();
      enumStore.SaveCurrentStore();
      groupStore.SaveCurrentStore();
    }
  }
}
