# db-schema-visualizer: layout, persistence and schema conversion in Dafny

This project models the core of db-schema-visualizer, an editor extension that draws DBML and Prisma schemas as an entity-relationship diagram. The core is the diagram's layout-and-persistence engine and the conversions that turn a parsed schema into the diagram's table schema.

Persistence:
- **Persistable stores and local storage** (`persistable_store.dfy`, `local_storage.dfy`). Keys are namespaced `storeName:name`. Storage has two layers: the snapshot the host injects, and `localStorage`. There is a fallback from any `tableGroups:*` key to the legacy `tableGroups:none` key.
- **Position stores** (`position_merge.dfy`, `coords_store.dfy`, `table_coords.dfy`, `enum_coords.dfy`). One position map per document key. `resetPositions` merges positions with precedence persisted > in-memory > computed. `switchTo` saves the outgoing map, then hydrates from any retrieved array, or else resets.
- **Group store** (`table_groups.dfy`, `group_aliasing.dfy`). Groups with geometry defaults, membership of tables and enums, per-document switching. Also the one-time hydration from the legacy key. `table_groups.dfy` treats every saved value as a copy. `group_aliasing.dfy` models the group objects that the live map shares with the host snapshot, and what in-place edits then do to other documents.
- **Connection control points** (`control_points.dfy`). Waypoints per `source-target-owner` key, persisted under one fixed key.
- **Small stores**: the table selection (`selected_tables.dfy`) and the connection type with its subscribers (`connection_type.dfy`).

Layout:
- **Grid layout** (`tables_grid.dfy`).
- **Enum side-column packing** (`enum_sort.dfy`, `enum_columns.dfy`, `enum_layout.dfy`). Enums are sorted by descending height, stably. Each goes to the lowest-index shortest column. The columns are then stacked beside the tables.
- **Connection geometry** (`handle_positions.dfy`, `enum_connection.dfy`, `dashed_path.dfy`). Handle-side choice, the enum anchor override, and the control-point path splice.
- **Drag event names** (`event_names.dfy`).
- **Group geometry and table drag** (`group_geometry.dfy`, `table_drag.dfy`). Resize clamping, member translation on group drag, membership recomputation by centre containment, and the group assignment at the end of a table drag.

Synchronisation:
- **Schema messages** (`schema_sync.dfy`). The webview's handler of `setSchema` messages. It switches the three per-document stores and normalises the persisted group shapes. As written, the handler switches on every message, because the key it compares with is the one captured when it was registered.
- **Structural fingerprint** (`fingerprint.dfy`). The fingerprint and the decision to reset the layout.

Conversion:
- **DBML groups** (`dbml_groups.dfy`). Table-group conversion: the `group_<index>_<name>` id and qualified table names.
- **Prisma** (`prisma_ast.dfy`, `prisma_field.dfy`, `prisma_relation.dfy`, `prisma_intermediate.dfy`, `prisma_refs.dfy`, `prisma_json.dfy`). The AST node predicates, field configuration, relation discovery and the intermediate schema. Then ref construction, virtual-field filtering and the final `{ tables, enums, refs }` schema.

`common.dfy` and `js_map.dfy` hold shared definitions. A JavaScript `Map`, which keeps insertion order, is modelled as a sequence of key/value entries. `Set` overwrites an existing key in place and appends a new key.

Stores whose fields the source updates in place are classes. Each class's methods are proved against specification functions of the old state, and lemmas state what the source promises about those functions. Pure code is modelled as functions and lemmas.

The model follows the code where it differs from the documented design:
- Persisted positions take precedence over in-memory ones in `resetPositions`.
- The control-point store keys by `source-target-owner`, not by a five-part connection key. It persists under the fixed key `connectionControlPoints`, not per document.
- Persisted groups that are not an array normalise to no groups; they are not read as a record.

## Model

| member | source | states |
|---|---|---|
| Persistable.SplitPersistenceKey | packages/json-table-schema-visualizer/src/stores/PersitableStore.ts:14-16 | for a colon-free store name, splitting `storeName:name` at its first colon gives back the store name and the name |
| Persistable.DistinctNamespaces | packages/json-table-schema-visualizer/src/stores/PersitableStore.ts:14-16 | two stores with different colon-free names never write the same key, and one store writes different keys for different names |
| Persistable.RetrieveAfterPersist | packages/json-table-schema-visualizer/src/stores/PersitableStore.ts:18-34 | on working storage, `retrieve(name)` after `persist(name, v)` returns `v`, and no other key changes in either layer |
| Persistable.RetrieveAfterClear | packages/json-table-schema-visualizer/src/stores/PersitableStore.ts:27-40 | on working storage, `retrieve(name)` after `clear(name)` is null for every store except `tableGroups` |
| Persistable.NotGroupsKey | packages/json-table-schema-visualizer/src/stores/PersitableStore.ts:14-16 | a store not named `tableGroups` never writes a key that the legacy `tableGroups:` rule reads |
| Persistable.PersistableStore.constructor | packages/json-table-schema-visualizer/src/stores/PersitableStore.ts:9-12 | a supplied storage is used as given; otherwise a fresh `AppLocalStorage` over the window's layers |
| Persistable.PersistableStore.Persist | packages/json-table-schema-visualizer/src/stores/PersitableStore.ts:18-25 | exactly one `setItem`, under `storeName:name` |
| Persistable.PersistableStore.Retrieve | packages/json-table-schema-visualizer/src/stores/PersitableStore.ts:27-34 | exactly one `getItem`, under `storeName:name`, and its answer |
| Persistable.PersistableStore.Clear | packages/json-table-schema-visualizer/src/stores/PersitableStore.ts:36-40 | exactly one `removeItem`, under `storeName:name` |
| LocalStorage.SnapshotHitShortCircuits | packages/json-table-schema-visualizer/src/storages/local.ts:21-24 | a key held by the injected snapshot is answered from it, whatever localStorage holds, and nothing changes |
| LocalStorage.LegacyFallback | packages/json-table-schema-visualizer/src/storages/local.ts:30-37 | a `tableGroups:*` key missing from the snapshot while `tableGroups:none` is present reads the legacy value and caches it under that key only |
| LocalStorage.LocalFallback | packages/json-table-schema-visualizer/src/storages/local.ts:43-54 | past both snapshot rules, a localStorage miss, parse failure or error reads null; a hit is copied into the snapshot so the next read takes the fast path |
| LocalStorage.GetItemTwice | packages/json-table-schema-visualizer/src/storages/local.ts:8-61 | a second read of a key returns the same value and changes nothing |
| LocalStorage.GetAfterSet | packages/json-table-schema-visualizer/src/storages/local.ts:63-80 | after `setItem(k, v)` both layers hold `v` at `k`, every other key is untouched, and `getItem(k)` is `v` |
| LocalStorage.GetAfterRemove | packages/json-table-schema-visualizer/src/storages/local.ts:107-114 | after `removeItem(k)`, `k` is gone from both layers, other keys are untouched, and `getItem(k)` is null unless the legacy rule applies |
| LocalStorage.FailuresAreSilent | packages/json-table-schema-visualizer/src/storages/local.ts:43-131 | when `localStorage.setItem` throws, a write changes nothing; when every localStorage call throws, a delete changes nothing and, with no snapshot, a read is null |
| LocalStorage.QuotaReadsOlderText | packages/json-table-schema-visualizer/src/storages/local.ts:43-105 | when only `setItem` throws (storage over quota), a write changes nothing and a later read of that key returns the older text still in localStorage |
| LocalStorage.ReadHeld | packages/json-table-schema-visualizer/src/storages/local.ts:8-54 | a key durably holding `v` in both layers reads `v` |
| LocalStorage.GetItemFrame | packages/json-table-schema-visualizer/src/storages/local.ts:8-61 | a read never changes localStorage and fills the snapshot at most at the key it reads |
| LocalStorage.HoldsAfterGet | packages/json-table-schema-visualizer/src/storages/local.ts:8-61 | a held value survives any read |
| LocalStorage.HoldsAfterSet | packages/json-table-schema-visualizer/src/storages/local.ts:63-80 | a held value survives a write to another key |
| LocalStorage.HoldsAfterRemove | packages/json-table-schema-visualizer/src/storages/local.ts:107-114 | a held value survives a delete of another key |
| LocalStorage.SetHolds | packages/json-table-schema-visualizer/src/storages/local.ts:63-80 | a write on working storage is held in both layers |
| LocalStorage.AppLocalStorage.constructor | packages/json-table-schema-visualizer/src/storages/local.ts:7 | the storage object starts on the window's current layers |
| LocalStorage.AppLocalStorage.GetItem | packages/json-table-schema-visualizer/src/storages/local.ts:8-61 | snapshot hit, legacy fallback, then localStorage with caching; the answer and the new state are those of `GetItemSpec` |
| LocalStorage.AppLocalStorage.SetItem | packages/json-table-schema-visualizer/src/storages/local.ts:63-105 | writes localStorage then the snapshot, or nothing when `localStorage.setItem` throws |
| LocalStorage.AppLocalStorage.RemoveItem | packages/json-table-schema-visualizer/src/storages/local.ts:107-131 | deletes from localStorage then the snapshot, or nothing when localStorage throws |
| PositionMerge.GetOverlay | packages/json-table-schema-visualizer/src/stores/tableCoords.ts:49-52 | after overlaying the recovered map, a name reads its last recovered position if it has one, else its in-memory position |
| PositionMerge.GetFillMissing | packages/json-table-schema-visualizer/src/stores/tableCoords.ts:66-71 | the fill loop gives a computed position only to a listed name the map lacks; every other name reads as before |
| PositionMerge.MergePrecedence | packages/json-table-schema-visualizer/src/stores/tableCoords.ts:41-71 | the merged position of every name: persisted beats in-memory beats computed, and computed reaches only listed names held by neither |
| PositionMerge.OverlayNoDup | packages/json-table-schema-visualizer/src/stores/tableCoords.ts:49-52 | overlaying keeps the map key-unique |
| PositionMerge.FillMissingNoDup | packages/json-table-schema-visualizer/src/stores/tableCoords.ts:66-71 | filling keeps the map key-unique |
| PositionMerge.MergeNoDup | packages/json-table-schema-visualizer/src/stores/tableCoords.ts:41-71 | the merged map is key-unique |
| PositionMerge.MergePositions | packages/json-table-schema-visualizer/src/stores/tableCoords.ts:41-71 | the two `forEach` loops over a copy of the in-memory map compute exactly the merge |
| CoordsStore.GetCoordsDefault | packages/json-table-schema-visualizer/src/stores/tableCoords.ts:107-109 | `getCoords` returns the stored position, or the (0, 0) sentinel when the name is absent |
| CoordsStore.KeysDiffer | packages/json-table-schema-visualizer/src/stores/PersitableStore.ts:14-16 | one store persists different document keys under different storage keys |
| CoordsStore.SetCoordsEffect | packages/json-table-schema-visualizer/src/stores/tableCoords.ts:111-115 | `setCoords` changes exactly one entry, and the whole new map is then held under the current key |
| CoordsStore.RemoveEffect | packages/json-table-schema-visualizer/src/stores/tableCoords.ts:117-119 | `remove` deletes exactly one entry and touches neither storage nor the key |
| CoordsStore.ResetDoesNotPersist | packages/json-table-schema-visualizer/src/stores/tableCoords.ts:37-75 | `resetPositions` leaves localStorage unchanged, keeps every held value held, and emits the map it installs |
| CoordsStore.ResetOutsideNames | packages/json-table-schema-visualizer/src/stores/tableCoords.ts:41-71 | a name outside the table list keeps its persisted or in-memory position, or stays absent |
| CoordsStore.SwitchSavesOutgoing | packages/json-table-schema-visualizer/src/stores/tableCoords.ts:88-95 | `switchTo` leaves the outgoing map held under the old key and moves to the new key |
| CoordsStore.SwitchHydrates | packages/json-table-schema-visualizer/src/stores/tableCoords.ts:96-104 | any array held under the new key, even an empty one, is installed verbatim and no reset is emitted |
| CoordsStore.SwitchRoundTrip | packages/json-table-schema-visualizer/src/stores/tableCoords.ts:88-105 | `switchTo(B)` then `switchTo(A)` restores A's map exactly, on working storage |
| CoordsStore.SwitchToEmptyArray | packages/json-table-schema-visualizer/src/stores/tableCoords.ts:99-104 | a stored empty array hydrates an empty map; the layout is not consulted |
| CoordsStore.SwitchNoDup | packages/json-table-schema-visualizer/src/stores/tableCoords.ts:88-105 | `switchTo` keeps the map key-unique |
| TableCoords.TableCoordsStore.constructor | packages/json-table-schema-visualizer/src/stores/tableCoords.ts:13-21 | an empty map, key `none`, store name `tableCoords` |
| TableCoords.TableCoordsStore.GetCoords | packages/json-table-schema-visualizer/src/stores/tableCoords.ts:107-109 | the stored position or the default sentinel |
| TableCoords.TableCoordsStore.SaveCurrentStore | packages/json-table-schema-visualizer/src/stores/tableCoords.ts:81-86 | persists the map's entries under the current key |
| TableCoords.TableCoordsStore.ResetPositions | packages/json-table-schema-visualizer/src/stores/tableCoords.ts:37-75 | the new state is the merge of in-memory, persisted and grid positions, emitted and not persisted |
| TableCoords.TableCoordsStore.SwitchTo | packages/json-table-schema-visualizer/src/stores/tableCoords.ts:88-105 | save, move to the new key, then hydrate from a stored array or reset |
| TableCoords.TableCoordsStore.SetCoords | packages/json-table-schema-visualizer/src/stores/tableCoords.ts:111-115 | sets one entry, then saves |
| TableCoords.TableCoordsStore.Remove | packages/json-table-schema-visualizer/src/stores/tableCoords.ts:117-119 | deletes one entry without saving |
| EnumCoords.EnumCoordsStore.constructor | packages/json-table-schema-visualizer/src/stores/enumCoords.ts:17-25 | an empty map, key `none`, store name `enumCoords` |
| EnumCoords.EnumCoordsStore.GetCoords | packages/json-table-schema-visualizer/src/stores/enumCoords.ts:128-130 | the stored position or the default sentinel |
| EnumCoords.EnumCoordsStore.SaveCurrentStore | packages/json-table-schema-visualizer/src/stores/enumCoords.ts:94-106 | persists the map's entries under the current key |
| EnumCoords.EnumCoordsStore.ResetPositions | packages/json-table-schema-visualizer/src/stores/enumCoords.ts:41-88 | the merge with persisted > in-memory > computed; only listed enums take computed positions, so table positions are never copied in; emitted, not persisted |
| EnumCoords.EnumCoordsStore.SwitchTo | packages/json-table-schema-visualizer/src/stores/enumCoords.ts:108-126 | save, move to the new key, then hydrate from a stored array or reset |
| EnumCoords.EnumCoordsStore.SetCoords | packages/json-table-schema-visualizer/src/stores/enumCoords.ts:132-139 | sets one entry, then saves |
| EnumCoords.EnumCoordsStore.Remove | packages/json-table-schema-visualizer/src/stores/enumCoords.ts:141-143 | deletes one entry without saving |
| TableGroups.InitEntries | packages/json-table-schema-visualizer/src/stores/tableGroups.ts:43-52 | one entry per input group, in order, keyed by its id and carrying the group with enumNames defaulted to [] and geometry to 0, 0, 400, 300 |
| TableGroups.InitGroupsGet | packages/json-table-schema-visualizer/src/stores/tableGroups.ts:41-53 | after initGroups an id maps to the defaulted form of the last input group with that id, and no other id is present |
| TableGroups.LastValueInit | packages/json-table-schema-visualizer/src/stores/tableGroups.ts:43-52 | replaying the per-group set calls leaves, for each id, the entry of the last group carrying it |
| TableGroups.Values | packages/json-table-schema-visualizer/src/stores/tableGroups.ts:176-178 | getGroups lists the group of every entry, in map order |
| TableGroups.ValuesAppend | packages/json-table-schema-visualizer/src/stores/tableGroups.ts:176-178 | a group appended to the map is listed last by getGroups |
| TableGroups.UpsertEffect | packages/json-table-schema-visualizer/src/stores/tableGroups.ts:108-130 | setGroup/createGroup store the group with geometry defaults under its id, keep every other id, persist the whole map under the current key and emit one change event |
| TableGroups.DeleteEffect | packages/json-table-schema-visualizer/src/stores/tableGroups.ts:132-136 | deleteGroup removes exactly that id, persists the map and emits one change event |
| TableGroups.AddTableEffect | packages/json-table-schema-visualizer/src/stores/tableGroups.ts:92-98 | addTableToGroup is idempotent, changes nothing for an unknown group or a member already listed, and otherwise appends the table name |
| TableGroups.RemoveTableEffect | packages/json-table-schema-visualizer/src/stores/tableGroups.ts:100-106 | removeTableFromGroup filters out every occurrence of the name and persists whenever the group exists; an unknown group changes nothing |
| TableGroups.WithoutAbsent | packages/json-table-schema-visualizer/src/stores/tableGroups.ts:103 | filtering out a name that is not listed returns the list unchanged |
| TableGroups.WithoutAppend | packages/json-table-schema-visualizer/src/stores/tableGroups.ts:103 | filtering out a name that was appended last gives the filter of the list before it |
| Common.WithoutConcat | packages/json-table-schema-visualizer/src/stores/tableGroups.ts:103 | the filter distributes over concatenation, so it keeps the names it keeps in their order |
| Common.WithoutSingle | packages/json-table-schema-visualizer/src/stores/tableGroups.ts:103 | a single name is kept exactly when it differs from the one filtered out |
| TableGroups.RemoveUndoesAdd | packages/json-table-schema-visualizer/src/stores/tableGroups.ts:92-106 | removing a table that was just added to a group restores that group's table list |
| TableGroups.EnumMembershipEffect | packages/json-table-schema-visualizer/src/stores/tableGroups.ts:155-174 | addEnumToGroup is idempotent and leaves an existing group with an enumNames list that holds the name; removeEnumFromGroup changes nothing when the list is missing |
| TableGroups.SetDimensionsEffect | packages/json-table-schema-visualizer/src/stores/tableGroups.ts:84-90 | setGroupDimensions overwrites exactly the supplied coordinates of an existing group, keeps all its other fields, and changes nothing for an unknown id |
| TableGroups.SwitchSavesOutgoing | packages/json-table-schema-visualizer/src/stores/tableGroups.ts:68-69 | switchTo first persists the outgoing map under the old key |
| TableGroups.SwitchInitialises | packages/json-table-schema-visualizer/src/stores/tableGroups.ts:68-82 | when neither storage layer holds an array for the new key, switchTo initialises from the given groups |
| TableGroups.LegacyHydration | packages/json-table-schema-visualizer/src/stores/tableGroups.ts:68-82 | with a host snapshot present, switching away from the initial key reads back the map just saved under "none", so two successive switches both keep the original groups instead of their own initial groups |
| TableGroups.EditsKeepOtherDocuments | packages/json-table-schema-visualizer/src/stores/tableGroups.ts:92-174 | with each saved value a copy, adding or removing a table or an enum changes storage under the current document's key only |
| TableGroups.SwitchReadsLegacy | packages/json-table-schema-visualizer/src/stores/tableGroups.ts:68-82 | switching from a document key to a key the snapshot lacks hydrates the groups saved under `none` |
| TableGroups.FirstLegacySwitch | packages/json-table-schema-visualizer/src/stores/tableGroups.ts:68-82 | the first switch away from `none` keeps the startup groups under `none` and leaves other keys unseen |
| TableGroups.LegacyEditStaysLocal | packages/json-table-schema-visualizer/src/stores/tableGroups.ts:68-98 | with each saved value a copy, a table added under the first document stays there: the second document still opens with the groups saved under `none` |
| TableGroups.TableGroupsStore.constructor | packages/json-table-schema-visualizer/src/stores/tableGroups.ts:14-22 | an empty map under the key "none", with no change event; every mutating method keeps the map's ids unique |
| TableGroups.TableGroupsStore.InitGroups | packages/json-table-schema-visualizer/src/stores/tableGroups.ts:41-53 | the map becomes the replay of the input groups; the key and the event count are unchanged |
| TableGroups.TableGroupsStore.GetGroup | packages/json-table-schema-visualizer/src/stores/tableGroups.ts:55-57 | the group stored under the id, if any |
| TableGroups.TableGroupsStore.SaveCurrentStore | packages/json-table-schema-visualizer/src/stores/tableGroups.ts:63-66 | the map's entries are written under the current key; nothing else changes |
| TableGroups.TableGroupsStore.SwitchTo | packages/json-table-schema-visualizer/src/stores/tableGroups.ts:68-82 | the new state is the save, key change and hydrate-or-initialise of the specification |
| TableGroups.TableGroupsStore.SetGroupDimensions | packages/json-table-schema-visualizer/src/stores/tableGroups.ts:84-90 | the new state is that of SetDimensionsEffect |
| TableGroups.TableGroupsStore.AddTableToGroup | packages/json-table-schema-visualizer/src/stores/tableGroups.ts:92-98 | the new state is that of AddTableEffect |
| TableGroups.TableGroupsStore.RemoveTableFromGroup | packages/json-table-schema-visualizer/src/stores/tableGroups.ts:100-106 | the new state is that of RemoveTableEffect |
| TableGroups.TableGroupsStore.SetGroup | packages/json-table-schema-visualizer/src/stores/tableGroups.ts:108-118 | the new state is the upsert of UpsertEffect |
| TableGroups.TableGroupsStore.CreateGroup | packages/json-table-schema-visualizer/src/stores/tableGroups.ts:120-130 | the new state is the same upsert as SetGroup |
| TableGroups.TableGroupsStore.DeleteGroup | packages/json-table-schema-visualizer/src/stores/tableGroups.ts:132-136 | the new state is that of DeleteEffect |
| TableGroups.TableGroupsStore.GetTablesInGroup | packages/json-table-schema-visualizer/src/stores/tableGroups.ts:145-148 | the group's table names, or [] for an unknown id |
| TableGroups.TableGroupsStore.GetEnumsInGroup | packages/json-table-schema-visualizer/src/stores/tableGroups.ts:150-153 | the group's enum names, or [] when the group or its list is missing |
| TableGroups.TableGroupsStore.AddEnumToGroup | packages/json-table-schema-visualizer/src/stores/tableGroups.ts:155-166 | the new state is that of EnumMembershipEffect's add |
| TableGroups.TableGroupsStore.RemoveEnumFromGroup | packages/json-table-schema-visualizer/src/stores/tableGroups.ts:168-174 | the new state filters the name out of an existing list and persists; a missing group or list changes nothing |
| TableGroups.TableGroupsStore.GetGroups | packages/json-table-schema-visualizer/src/stores/tableGroups.ts:176-178 | the groups in map order |
| TableGroups.TableGroupsStore.InitIfEmpty | packages/json-table-schema-visualizer/src/components/DiagramViewer/TableGroups.tsx:23-27 | the map is initialised from the schema's groups exactly when it is empty and the schema brings at least one group; otherwise it is unchanged |
| GroupAliasing.Resolve | packages/json-table-schema-visualizer/src/storages/local.ts:76-80 | an array of `[id, object]` pairs denotes, slot by slot, the id and the group object it points at |
| GroupAliasing.Save | packages/json-table-schema-visualizer/src/stores/tableGroups.ts:63-66 | the snapshot keeps the live pairs themselves and localStorage a copy of the groups they denote; the heap, the map and the key are unchanged |
| GroupAliasing.Alloc | packages/json-table-schema-visualizer/src/storages/local.ts:47-52 | parsing allocates one fresh object per stored group, after every existing one, and keeps the existing ones |
| GroupAliasing.Read | packages/json-table-schema-visualizer/src/storages/local.ts:21-54 | a read leaves the live map, the key and localStorage alone, keeps every address allocated and returns allocated addresses |
| GroupAliasing.Switch | packages/json-table-schema-visualizer/src/stores/tableGroups.ts:68-82 | a switch moves to the new key and keeps every address allocated |
| GroupAliasing.EditAndSave | packages/json-table-schema-visualizer/src/stores/tableGroups.ts:92-174 | an in-place edit replaces the one object at its address and keeps every address allocated |
| GroupAliasing.Lookup | packages/json-table-schema-visualizer/src/stores/tableGroups.ts:93 | the object the map holds under an id is allocated |
| GroupAliasing.AddTable | packages/json-table-schema-visualizer/src/stores/tableGroups.ts:92-98 | addTableToGroup keeps every address allocated; its effect on other documents is AddTableReachesOtherKeys |
| GroupAliasing.RemoveTable | packages/json-table-schema-visualizer/src/stores/tableGroups.ts:100-106 | removeTableFromGroup keeps every address allocated; its effect on other documents is RemoveTableReachesOtherKeys |
| GroupAliasing.AddEnum | packages/json-table-schema-visualizer/src/stores/tableGroups.ts:155-166 | addEnumToGroup keeps every address allocated; its effect on other documents is EditReachesOtherKeys |
| GroupAliasing.RemoveEnum | packages/json-table-schema-visualizer/src/stores/tableGroups.ts:168-174 | removeEnumFromGroup keeps every address allocated; its effect on other documents is EditReachesOtherKeys |
| GroupAliasing.EditReachesOtherKeys | packages/json-table-schema-visualizer/src/stores/tableGroups.ts:92-174 | an in-place edit changes the group that another document's snapshot entry denotes at every slot holding the edited object, while that entry and its localStorage copy stay as they were |
| GroupAliasing.AddTableReachesOtherKeys | packages/json-table-schema-visualizer/src/stores/tableGroups.ts:92-98 | adding a table under one document appends it to the group that another document's snapshot entry shares, and leaves that document's localStorage copy alone |
| GroupAliasing.RemoveTableReachesOtherKeys | packages/json-table-schema-visualizer/src/stores/tableGroups.ts:100-106 | removing a table under one document filters it out of the group that another document's snapshot entry shares, and leaves that document's localStorage copy alone |
| GroupAliasing.FirstSwitch | packages/json-table-schema-visualizer/src/stores/tableGroups.ts:68-82 | from the startup state, `switchTo(k1)` saves the startup pairs under `none` and hydrates `k1` over that same array |
| GroupAliasing.EditUnderK1 | packages/json-table-schema-visualizer/src/stores/tableGroups.ts:92-98 | `addTableToGroup(g1, b)` under `k1` changes the shared object, so the `none` array now denotes `[a, b]`, while its localStorage copy is unchanged |
| GroupAliasing.SecondSwitch | packages/json-table-schema-visualizer/src/stores/tableGroups.ts:68-82 | `switchTo(k2)` falls back to the `none` array again and hydrates over the edited object |
| GroupAliasing.LegacyEditLeaks | packages/json-table-schema-visualizer/src/stores/tableGroups.ts:68-98 | after `switchTo(k1)`, `addTableToGroup(g1, b)` and `switchTo(k2)`, document `k2` opens with `[a, b]`, and the groups saved for `none` denote `[a, b]` in the snapshot but `[a]` in localStorage |
| ControlPoints.ConnectionKeyInjective | packages/json-table-schema-visualizer/src/stores/connectionControlPoints.ts:18-20 | for table names without a dash, the key "source-target-owner" determines all three parts, so distinct connections never share a list |
| ControlPoints.DashSplit | packages/json-table-schema-visualizer/src/stores/connectionControlPoints.ts:18-20 | a dash-free prefix before the first dash of a key is recovered uniquely |
| ControlPoints.FindIndex | packages/json-table-schema-visualizer/src/stores/connectionControlPoints.ts:48 | the first index whose point carries the id, or none when no point does |
| ControlPoints.DropId | packages/json-table-schema-visualizer/src/stores/connectionControlPoints.ts:65 | exactly the points whose id differs, never longer than the input |
| ControlPoints.AddAppends | packages/json-table-schema-visualizer/src/stores/connectionControlPoints.ts:22-36 | addControlPoint appends one point with the given position and id to the connection's list, leaves every other list alone and persists the whole map |
| ControlPoints.MoveEffect | packages/json-table-schema-visualizer/src/stores/connectionControlPoints.ts:38-54 | moveControlPoint repositions only the first point with the id, keeping its id and the list's length; for an absent id nothing changes, storage included |
| ControlPoints.RemoveEffect | packages/json-table-schema-visualizer/src/stores/connectionControlPoints.ts:56-72 | removeControlPoint leaves no point with the id, keeps the others, drops the key when the list becomes empty, leaves other keys alone and persists |
| ControlPoints.ClearEffect | packages/json-table-schema-visualizer/src/stores/connectionControlPoints.ts:83-91 | clearControlPoints deletes exactly that connection's key and persists |
| ControlPoints.LoadAfterSave | packages/json-table-schema-visualizer/src/stores/connectionControlPoints.ts:97-112 | loadStore reads back exactly the map that saveCurrentStore wrote |
| ControlPoints.LoadWithoutArray | packages/json-table-schema-visualizer/src/stores/connectionControlPoints.ts:102-112 | loadStore keeps the map when storage yields no array |
| ControlPoints.ConnectionControlPointsStore.constructor | packages/json-table-schema-visualizer/src/stores/connectionControlPoints.ts:10-16 | an empty map over the given storage window |
| ControlPoints.ConnectionControlPointsStore.SaveCurrentStore | packages/json-table-schema-visualizer/src/stores/connectionControlPoints.ts:97-100 | the map's entries are written under the fixed store name |
| ControlPoints.ConnectionControlPointsStore.AddControlPoint | packages/json-table-schema-visualizer/src/stores/connectionControlPoints.ts:22-36 | the new state is that of AddAppends, for the connection's key |
| ControlPoints.ConnectionControlPointsStore.MoveControlPoint | packages/json-table-schema-visualizer/src/stores/connectionControlPoints.ts:38-54 | the new state is that of MoveEffect |
| ControlPoints.ConnectionControlPointsStore.RemoveControlPoint | packages/json-table-schema-visualizer/src/stores/connectionControlPoints.ts:56-72 | the new state is that of RemoveEffect |
| ControlPoints.ConnectionControlPointsStore.GetControlPoints | packages/json-table-schema-visualizer/src/stores/connectionControlPoints.ts:74-81 | the connection's list, or [] |
| ControlPoints.ConnectionControlPointsStore.ClearControlPoints | packages/json-table-schema-visualizer/src/stores/connectionControlPoints.ts:83-91 | the new state is that of ClearEffect |
| ControlPoints.ConnectionControlPointsStore.LoadStore | packages/json-table-schema-visualizer/src/stores/connectionControlPoints.ts:102-112 | the map is replaced by a retrieved array and kept otherwise |
| SelectedTables.Toggle | packages/json-table-schema-visualizer/src/stores/selectedTables.ts:8-13 | the name is selected afterwards exactly when it was not before; every other name keeps its status |
| SelectedTables.Names | packages/json-table-schema-visualizer/src/stores/selectedTables.ts:23 | the set of the listed names |
| SelectedTables.ToggleTwice | packages/json-table-schema-visualizer/src/stores/selectedTables.ts:8-13 | toggling the same name twice restores the selection |
| SelectedTables.SelectedTablesStore.constructor | packages/json-table-schema-visualizer/src/stores/selectedTables.ts:3-4 | nothing selected, nothing emitted |
| SelectedTables.SelectedTablesStore.ToggleSelection | packages/json-table-schema-visualizer/src/stores/selectedTables.ts:8-15 | the selection is toggled and one snapshot of the new selection is emitted |
| SelectedTables.SelectedTablesStore.ClearSelection | packages/json-table-schema-visualizer/src/stores/selectedTables.ts:17-20 | the selection becomes empty and an empty snapshot is emitted |
| SelectedTables.SelectedTablesStore.SelectMultiple | packages/json-table-schema-visualizer/src/stores/selectedTables.ts:22-25 | every listed name is added to the selection, which keeps its other names, and one snapshot is emitted |
| SelectedTables.SelectedTablesStore.GetSelected | packages/json-table-schema-visualizer/src/stores/selectedTables.ts:27-29 | a copy of the selection |
| SelectedTables.SelectedTablesStore.IsSelected | packages/json-table-schema-visualizer/src/stores/selectedTables.ts:31-33 | true exactly for a selected name |
| ConnectionTypes.Notifications | packages/json-table-schema-visualizer/src/stores/connectionTypeStore.ts:25-27 | one call per subscriber, in subscription order, each with the current type |
| ConnectionTypes.Unsubscribed | packages/json-table-schema-visualizer/src/stores/connectionTypeStore.ts:20-22 | the callback is gone and every other callback stays |
| ConnectionTypes.UnsubscribeKeepsOrder | packages/json-table-schema-visualizer/src/stores/connectionTypeStore.ts:20-22 | unsubscribing keeps the relative order of the remaining callbacks |
| ConnectionTypes.ConnectionTypeStore.constructor | packages/json-table-schema-visualizer/src/stores/connectionTypeStore.ts:3-5 | the type starts as bezier with no subscribers |
| ConnectionTypes.ConnectionTypeStore.GetConnectionType | packages/json-table-schema-visualizer/src/stores/connectionTypeStore.ts:7-9 | the current type |
| ConnectionTypes.ConnectionTypeStore.SetConnectionType | packages/json-table-schema-visualizer/src/stores/connectionTypeStore.ts:11-16 | the type is stored; subscribers are notified only when it differs from the current one |
| ConnectionTypes.ConnectionTypeStore.NotifySubscribers | packages/json-table-schema-visualizer/src/stores/connectionTypeStore.ts:25-27 | every subscriber is called once with the current type, in order |
| ConnectionTypes.ConnectionTypeStore.Subscribe | packages/json-table-schema-visualizer/src/stores/connectionTypeStore.ts:18-19 | the callback is appended to the subscribers |
| ConnectionTypes.ConnectionTypeStore.Unsubscribe | packages/json-table-schema-visualizer/src/stores/connectionTypeStore.ts:20-22 | the subscribers lose every occurrence of the callback |
| TablesGrid.ComputeTablesPositions | packages/json-table-schema-visualizer/src/utils/tablePositioning/computeTablesPositions.ts:13-32 | the map built by one set call per table in input order, each at its row-major grid cell |
| TablesGrid.LastIndex | packages/json-table-schema-visualizer/src/utils/tablePositioning/computeTablesPositions.ts:23-29 | the index of the last occurrence of a name, the one whose cell the map keeps |
| TablesGrid.GridGet | packages/json-table-schema-visualizer/src/utils/tablePositioning/computeTablesPositions.ts:23-29 | every input table has an entry, at column idx % cols and row floor(idx / cols) of its last index, and no other name has one |
| TablesGrid.GridKeys | packages/json-table-schema-visualizer/src/utils/tablePositioning/computeTablesPositions.ts:23-29 | for distinct table names the map's keys are the tables in input order |
| TablesGrid.DistinctCells | packages/json-table-schema-visualizer/src/utils/tablePositioning/computeTablesPositions.ts:24-27 | with positive column width and row height, distinct indices get distinct cells, so no two tables overlap |
| TablesGrid.ThreeColumns | packages/json-table-schema-visualizer/src/utils/tablePositioning/tests/computeTablesPositions.test.ts:20-39 | with three columns the four example tables fill the first row and the fourth starts the second row |
| TablesGrid.FourColumns | packages/json-table-schema-visualizer/src/utils/tablePositioning/tests/computeTablesPositions.test.ts:41-57 | with four columns the four example tables all sit on the first row |
| EnumSort.InsertDesc | packages/json-table-schema-visualizer/src/utils/tablePositioning/computeElementsPositions.ts:160 | inserting an enum adds exactly that enum to the multiset of entries |
| EnumSort.InsertDescSorted | packages/json-table-schema-visualizer/src/utils/tablePositioning/computeElementsPositions.ts:160 | inserting into a tallest-first list keeps it tallest-first |
| EnumSort.SortDescCorrect | packages/json-table-schema-visualizer/src/utils/tablePositioning/computeElementsPositions.ts:160 | the sort by descending height yields a permutation of its input, tallest first |
| EnumSort.OfHeightInsert | packages/json-table-schema-visualizer/src/utils/tablePositioning/computeElementsPositions.ts:160 | an inserted enum lands behind every entry of its own height |
| EnumSort.SortDescStable | packages/json-table-schema-visualizer/src/utils/tablePositioning/computeElementsPositions.ts:160 | the sort is stable: enums of equal height keep their input order |
| EnumColumns.MinIndex | packages/json-table-schema-visualizer/src/utils/tablePositioning/computeElementsPositions.ts:164-167 | the scan yields a column of least height, and the lowest-index one among ties |
| EnumColumns.Distribute | packages/json-table-schema-visualizer/src/utils/tablePositioning/computeElementsPositions.ts:155-170 | the distribution yields one list and one height per column |
| EnumColumns.DistributePermutes | packages/json-table-schema-visualizer/src/utils/tablePositioning/computeElementsPositions.ts:162-170 | every enum lands in exactly one column: the columns together are a permutation of the sorted entries |
| EnumColumns.DistributeHeights | packages/json-table-schema-visualizer/src/utils/tablePositioning/computeElementsPositions.ts:169 | each column's recorded height is the sum of its enums' heights plus one gap per enum |
| EnumColumns.GreedyChoice | packages/json-table-schema-visualizer/src/utils/tablePositioning/computeElementsPositions.ts:162-170 | each enum is appended to exactly one column, the lowest-index column of least height at that moment, and no other column changes |
| EnumColumns.LowestColumn | packages/json-table-schema-visualizer/src/utils/tablePositioning/computeElementsPositions.ts:164-167 | the scan over the column heights returns the first index of the least height |
| EnumColumns.PlaceEntry | packages/json-table-schema-visualizer/src/utils/tablePositioning/computeElementsPositions.ts:162-170 | one turn of the loop appends the enum to the lowest column and grows that column's height in place by the enum's height plus the gap |
| EnumColumns.DistributeEnums | packages/json-table-schema-visualizer/src/utils/tablePositioning/computeElementsPositions.ts:155-170 | the loop with its inner minimum scan computes the distribution of the specification |
| EnumLayout.TableEntries | packages/json-table-schema-visualizer/src/utils/tablePositioning/computeElementsPositions.ts:87-100 | the node loop records no enum node among the table positions |
| EnumLayout.EnumWidth | packages/json-table-schema-visualizer/src/utils/tablePositioning/computeElementsPositions.ts:114 | an enum box is at least 200 wide and at least its detail-box width plus 64 |
| EnumLayout.EnumHeight | packages/json-table-schema-visualizer/src/utils/tablePositioning/computeElementsPositions.ts:115 | an enum box is at least 120 tall and at least 60 plus 28 per value |
| EnumLayout.SizeEntries | packages/json-table-schema-visualizer/src/utils/tablePositioning/computeElementsPositions.ts:113-117 | one size entry per enum, in order, keyed by its name |
| EnumLayout.MaxOr | packages/json-table-schema-visualizer/src/utils/tablePositioning/computeElementsPositions.ts:105-108 | Math.max over a list and a default bounds every element and the default |
| EnumLayout.MinOf | packages/json-table-schema-visualizer/src/utils/tablePositioning/computeElementsPositions.ts:175 | Math.min over a non-empty list is one of its elements and bounds all of them |
| EnumLayout.Ceil | packages/json-table-schema-visualizer/src/utils/tablePositioning/computeElementsPositions.ts:147 | the least integer not below the argument |
| EnumLayout.MaxColumnHeight | packages/json-table-schema-visualizer/src/utils/tablePositioning/computeElementsPositions.ts:139-143 | the column height is at least 600 |
| EnumLayout.ColumnCount | packages/json-table-schema-visualizer/src/utils/tablePositioning/computeElementsPositions.ts:145-148 | one column exactly when the stacked height fits the column height; otherwise the fewest columns whose combined height holds the stack |
| EnumLayout.CeilBounds | packages/json-table-schema-visualizer/src/utils/tablePositioning/computeElementsPositions.ts:146-147 | when the stack exceeds the column height the ceiling gives at least two columns, which hold it while one fewer would not |
| EnumLayout.ColumnPlacement | packages/json-table-schema-visualizer/src/utils/tablePositioning/computeElementsPositions.ts:179-193 | one position per enum of a column, in order |
| EnumLayout.LayoutFrame | packages/json-table-schema-visualizer/src/utils/tablePositioning/computeElementsPositions.ts:105-182 | at least one column, a maximum width of at least 200 that bounds every enum width, and a column stride at least that width |
| EnumLayout.EnumEntriesComplete | packages/json-table-schema-visualizer/src/utils/tablePositioning/computeElementsPositions.ts:123-131 | when every enum name has a size, the filter drops nothing: one entry per enum, in order, with its recorded size |
| EnumLayout.EnumBoxes | packages/json-table-schema-visualizer/src/utils/tablePositioning/computeElementsPositions.ts:112-131 | every enum has an entry, in order, and every entry is at least 200 wide and 120 tall |
| EnumLayout.TablesWin | packages/json-table-schema-visualizer/src/utils/tablePositioning/computeElementsPositions.ts:195-198 | table positions are written last, so every node classified as a table keeps its dagre top-left position |
| EnumLayout.TableTopLeft | packages/json-table-schema-visualizer/src/utils/tablePositioning/computeElementsPositions.ts:87-100 | a table node's position is its dagre centre moved by half its size; an enum node yields no table position |
| EnumLayout.DistributedPlaced | packages/json-table-schema-visualizer/src/utils/tablePositioning/computeElementsPositions.ts:162-193 | every distributed enum receives a placement |
| EnumLayout.EnumsPlaced | packages/json-table-schema-visualizer/src/utils/tablePositioning/computeElementsPositions.ts:15-200 | every enum of the schema has a position in the returned map |
| EnumLayout.ColumnStacking | packages/json-table-schema-visualizer/src/utils/tablePositioning/computeElementsPositions.ts:183-192 | within a column each top is the previous top plus the previous height plus the vertical gap |
| EnumLayout.ColumnNoOverlap | packages/json-table-schema-visualizer/src/utils/tablePositioning/computeElementsPositions.ts:183-192 | with a positive gap, enums of one column never overlap vertically |
| EnumLayout.ColumnsApart | packages/json-table-schema-visualizer/src/utils/tablePositioning/computeElementsPositions.ts:151-152 | enums of different columns never overlap horizontally |
| EnumLayout.SplitNodes | packages/json-table-schema-visualizer/src/utils/tablePositioning/computeElementsPositions.ts:87-100 | the node loop computes the table positions of the specification |
| EnumLayout.PlaceColumn | packages/json-table-schema-visualizer/src/utils/tablePositioning/computeElementsPositions.ts:180-192 | the yCursor loop adds the column's placements to the map |
| EnumLayout.PlaceNextColumn | packages/json-table-schema-visualizer/src/utils/tablePositioning/computeElementsPositions.ts:179-193 | one turn of the outer loop adds the placements of the next column, that many strides right of the first |
| EnumLayout.PlaceColumns | packages/json-table-schema-visualizer/src/utils/tablePositioning/computeElementsPositions.ts:179-193 | the outer loop adds every column's placements, column by column |
| EnumLayout.EnumSizes | packages/json-table-schema-visualizer/src/utils/tablePositioning/computeElementsPositions.ts:112-117 | the size loop builds the map of the size entries |
| EnumLayout.WriteTables | packages/json-table-schema-visualizer/src/utils/tablePositioning/computeElementsPositions.ts:195-198 | every table position is written over the placements |
| EnumLayout.ComputeEnumLayout | packages/json-table-schema-visualizer/src/utils/tablePositioning/computeElementsPositions.ts:84-200 | the enum branch returns the layout of the specification |
| EnumLayout.TableRightEdges | packages/json-table-schema-visualizer/src/utils/tablePositioning/computeElementsPositions.ts:87-109 | every table node's right edge is among the edges listed |
| EnumLayout.PlacementsXAtLeast | packages/json-table-schema-visualizer/src/utils/tablePositioning/computeElementsPositions.ts:179-193 | with a non-negative stride no enum lies left of the first column |
| EnumLayout.EnumsRightOfTableCorners | packages/json-table-schema-visualizer/src/utils/tablePositioning/computeElementsPositions.ts:105-109 | as written, every enum lies at least eight horizontal gaps right of every table's left edge |
| EnumLayout.IntendedEnumsClearTables | packages/json-table-schema-visualizer/src/utils/tablePositioning/computeElementsPositions.ts:102-109 | with the first column measured from the tables' right edges, every enum lies at least eight horizontal gaps right of every table's right edge |
| EnumLayout.WideTableParts | packages/json-table-schema-visualizer/src/utils/tablePositioning/computeElementsPositions.ts:87-131 | for a 400-wide table and a one-value enum, the table sits at the origin and the enum box is 200 by 120 |
| EnumLayout.WideTableFrame | packages/json-table-schema-visualizer/src/utils/tablePositioning/computeElementsPositions.ts:105-152 | with gaps of 10 that input gives one column starting at x 80 |
| EnumLayout.WideTablePlacements | packages/json-table-schema-visualizer/src/utils/tablePositioning/computeElementsPositions.ts:162-193 | the one enum goes to the one column and is placed at (80, -8) |
| EnumLayout.WideTableLayout | packages/json-table-schema-visualizer/src/utils/tablePositioning/computeElementsPositions.ts:84-200 | the returned positions are the enum at (80, -8) and the table at the origin |
| EnumLayout.WideTableLookups | packages/json-table-schema-visualizer/src/utils/tablePositioning/computeElementsPositions.ts:195-199 | in the map built from the enum's and the table's entries, the enum is at (80, -8) and the table at the origin |
| EnumLayout.WideTableIntendedX0 | packages/json-table-schema-visualizer/src/utils/tablePositioning/computeElementsPositions.ts:102-109 | measured from the table's right edge, the first column would start at 480 |
| EnumLayout.EnumOverlapsWideTable | packages/json-table-schema-visualizer/src/utils/tablePositioning/computeElementsPositions.ts:102-193 | the enum at (80, -8) overlaps the 400-wide table at the origin, against the promise that enums do not overlap tables; the intended first column starts at 480 |
| HandlePositions.HandlePos | packages/json-table-schema-visualizer/src/utils/computeConnectionHandlePositions.ts:12-122 | the handles are right-to-left or left-to-right under the chosen reading of the coordinates, and the two sides always differ |
| HandlePositions.SourceClearlyLeft | packages/json-table-schema-visualizer/src/utils/computeConnectionHandlePositions.ts:65-81 | a source clearly left of its target (more than the 40 gap) connects its right edge to the target's left edge |
| HandlePositions.TargetClearlyLeft | packages/json-table-schema-visualizer/src/utils/computeConnectionHandlePositions.ts:83-99 | otherwise a target clearly left of its source connects the source's left edge to the target's right edge |
| HandlePositions.SideFollowsCentres | packages/json-table-schema-visualizer/src/utils/computeConnectionHandlePositions.ts:64-121 | for widths that are not negative the three rules agree with the centre comparison: right-to-left exactly when the source centre is not right of the target centre |
| HandlePositions.EqualWidthsUseTopLeft | packages/json-table-schema-visualizer/src/utils/computeConnectionHandlePositions.ts:37-46 | with equal widths both readings give the same gap, so the top-left reading is used |
| HandlePositions.UnitTestInputs | packages/json-table-schema-visualizer/src/utils/tests/computeConnectionHandlePosition.test.ts:6-50 | the three unit-test inputs give the expected sides and x values |
| EnumConnections.Resolve | packages/json-table-schema-visualizer/src/components/RelationConnection/EnumConnection.tsx:117-157 | the override always yields opposite sides, unless the centres are equal and the computed handles are kept |
| EnumConnections.EnumLeftOfTable | packages/json-table-schema-visualizer/src/components/RelationConnection/EnumConnection.tsx:135-143 | an enum left of its table is attached on its right edge, and the table leaves from its left edge |
| EnumConnections.EnumRightOfTable | packages/json-table-schema-visualizer/src/components/RelationConnection/EnumConnection.tsx:144-152 | an enum right of its table is attached on its left edge, and the table leaves from its right edge |
| EnumConnections.EqualCentresKeepComputed | packages/json-table-schema-visualizer/src/components/RelationConnection/EnumConnection.tsx:122-157 | equal centres keep the handles computeConnectionHandlePos chose |
| EnumConnections.OverrideAgreesWithTopLeft | packages/json-table-schema-visualizer/src/components/RelationConnection/EnumConnection.tsx:104-157 | when the top-left reading is chosen and widths are not negative, the override never changes the computed handles |
| EnumConnections.LineEndpoints | packages/json-table-schema-visualizer/src/components/RelationConnection/EnumConnection.tsx:159-206 | the line starts at the source column's y, ends at the middle of the enum header, is owned by the source table and joins opposite sides |
| DashedPath.Split | packages/json-table-schema-visualizer/src/components/RelationConnection/ConnectionPath.tsx:282 | splitting at spaces yields at least one piece and no piece holds a space |
| DashedPath.NonEmpty | packages/json-table-schema-visualizer/src/components/RelationConnection/ConnectionPath.tsx:282 | the filter keeps only non-empty pieces of its input |
| DashedPath.JoinSplit | packages/json-table-schema-visualizer/src/components/RelationConnection/ConnectionPath.tsx:282 | joining the split pieces with spaces restores the string |
| DashedPath.TokensWellFormed | packages/json-table-schema-visualizer/src/components/RelationConnection/ConnectionPath.tsx:282 | every token of the path is non-empty and holds no space |
| DashedPath.MainEnd | packages/json-table-schema-visualizer/src/components/RelationConnection/ConnectionPath.tsx:283-290 | the main segment ends at the first M token after the first token, or at the end; no M token lies before it |
| DashedPath.MainEndUnique | packages/json-table-schema-visualizer/src/components/RelationConnection/ConnectionPath.tsx:283-290 | any index with those properties is the main segment's end |
| DashedPath.MainAndSymbols | packages/json-table-schema-visualizer/src/components/RelationConnection/ConnectionPath.tsx:292-293 | the main part and the symbol part together are all the tokens, and the symbol part starts with M |
| DashedPath.SegmentsAppend | packages/json-table-schema-visualizer/src/components/RelationConnection/ConnectionPath.tsx:302-304 | the segments of two runs of control points are the two runs' segments concatenated, in order |
| DashedPath.RunsExamples | packages/json-table-schema-visualizer/src/components/RelationConnection/ConnectionPath.tsx:299-301 | a token such as 100,200 holds two numbers and the token M holds none |
| DashedPath.DashedPath | packages/json-table-schema-visualizer/src/components/RelationConnection/ConnectionPath.tsx:278-309 | without control points the path is returned unchanged |
| DashedPath.ShownDashedPath | packages/json-table-schema-visualizer/src/components/RelationConnection/ConnectionPath.tsx:59 | a dashed path is drawn exactly while editing with at least one control point, and then it is the generated path |
| DashedPath.FindMainEnd | packages/json-table-schema-visualizer/src/components/RelationConnection/ConnectionPath.tsx:283-290 | the loop with its break finds the main segment's end |
| DashedPath.AppendSegments | packages/json-table-schema-visualizer/src/components/RelationConnection/ConnectionPath.tsx:302-304 | the loop appends one " L x y" per control point in list order |
| DashedPath.GenerateDashedPath | packages/json-table-schema-visualizer/src/components/RelationConnection/ConnectionPath.tsx:278-309 | the generated path is that of the specification |
| EventNames.TableDragEventName | packages/json-table-schema-visualizer/src/utils/eventName.ts:1-3 | the table drag event name is the fixed table prefix followed by the table name |
| EventNames.EnumDragEventName | packages/json-table-schema-visualizer/src/utils/eventName.ts:5-7 | the enum drag event name is the fixed enum prefix followed by the enum name |
| EventNames.EventNamesInjective | packages/json-table-schema-visualizer/src/utils/eventName.ts:1-7 | different tables drag under different event names, and so do different enums |
| EventNames.TableAndEnumEventsDisjoint | packages/json-table-schema-visualizer/src/utils/eventName.ts:1-7 | no table drag event name equals an enum drag event name |
| GroupGeometry.ResizeMove | packages/json-table-schema-visualizer/src/components/TableGroup/TableGroup.tsx:159-194 | every corner keeps the width at least 200 and the height at least 150, grows or shrinks by the mouse travel on its own sides, and keeps the opposite edges fixed |
| GroupGeometry.TranslatedMoves | packages/json-table-schema-visualizer/src/components/TableGroup/TableGroup.tsx:74-95 | with distinct member names, every member that has a node moves by exactly the group's travel and every other node stays |
| GroupGeometry.EventsMatchNodes | packages/json-table-schema-visualizer/src/components/TableGroup/TableGroup.tsx:81-93 | every drag event emitted names a moved member and carries that member's new position |
| GroupGeometry.EveryMovedMemberSignals | packages/json-table-schema-visualizer/src/components/TableGroup/TableGroup.tsx:81-93 | every member that has a node emits its drag event, carrying the node's position moved by the delta |
| GroupGeometry.MoveMembers | packages/json-table-schema-visualizer/src/components/TableGroup/TableGroup.tsx:74-95 | the member loop moves the nodes and emits the events of the specification |
| GroupGeometry.HandleDragMove | packages/json-table-schema-visualizer/src/components/TableGroup/TableGroup.tsx:63-99 | nothing moves while resizing; otherwise member tables and enums move by the travel since the last move and the group's position becomes the new reference |
| GroupGeometry.InsideNames | packages/json-table-schema-visualizer/src/components/TableGroup/TableGroup.tsx:262-284 | exactly the candidate names that have a node whose centre lies in the group's closed rectangle |
| GroupGeometry.Missing | packages/json-table-schema-visualizer/src/components/TableGroup/TableGroup.tsx:291-297 | the names of the first list absent from the second |
| GroupGeometry.AddTableStep | packages/json-table-schema-visualizer/src/components/TableGroup/TableGroup.tsx:293 | one addTableToGroup adds the table to the group's table set and leaves its enums alone |
| GroupGeometry.RemoveTableStep | packages/json-table-schema-visualizer/src/components/TableGroup/TableGroup.tsx:294 | one removeTableFromGroup takes the table out of the group's table set and leaves its enums alone |
| GroupGeometry.AddEnumStep | packages/json-table-schema-visualizer/src/components/TableGroup/TableGroup.tsx:298 | one addEnumToGroup adds the enum to the group's enum set and leaves its tables alone |
| GroupGeometry.RemoveEnumStep | packages/json-table-schema-visualizer/src/components/TableGroup/TableGroup.tsx:299 | one removeEnumFromGroup takes the enum out of the group's enum set and leaves its tables alone |
| GroupGeometry.AddTablesSets | packages/json-table-schema-visualizer/src/components/TableGroup/TableGroup.tsx:293 | the add loop makes the table set the union of the old set and the added names |
| GroupGeometry.RemoveTablesSets | packages/json-table-schema-visualizer/src/components/TableGroup/TableGroup.tsx:294 | the remove loop makes the table set the old set minus the removed names |
| GroupGeometry.AddEnumsSets | packages/json-table-schema-visualizer/src/components/TableGroup/TableGroup.tsx:298 | the add loop makes the enum set the union of the old set and the added names |
| GroupGeometry.RemoveEnumsSets | packages/json-table-schema-visualizer/src/components/TableGroup/TableGroup.tsx:299 | the remove loop makes the enum set the old set minus the removed names |
| GroupGeometry.RecomputeMatchesInside | packages/json-table-schema-visualizer/src/components/TableGroup/TableGroup.tsx:286-299 | after recomputing, the group's tables and enums are, as sets, exactly those found inside it |
| GroupGeometry.RecomputeUnchanged | packages/json-table-schema-visualizer/src/components/TableGroup/TableGroup.tsx:286-303 | when the group already holds exactly the names found inside, no delta is applied and nothing is saved |
| GroupGeometry.EmptyMissing | packages/json-table-schema-visualizer/src/components/TableGroup/TableGroup.tsx:291-297 | a list contained in another leaves no missing names |
| GroupGeometry.CollectInside | packages/json-table-schema-visualizer/src/components/TableGroup/TableGroup.tsx:263-284 | the candidate loop collects the inside names of the specification |
| GroupGeometry.ApplyAddTables | packages/json-table-schema-visualizer/src/components/TableGroup/TableGroup.tsx:293 | the store's new state is the replay of the table additions |
| GroupGeometry.ApplyRemoveTables | packages/json-table-schema-visualizer/src/components/TableGroup/TableGroup.tsx:294 | the store's new state is the replay of the table removals |
| GroupGeometry.ApplyAddEnums | packages/json-table-schema-visualizer/src/components/TableGroup/TableGroup.tsx:298 | the store's new state is the replay of the enum additions |
| GroupGeometry.ApplyRemoveEnums | packages/json-table-schema-visualizer/src/components/TableGroup/TableGroup.tsx:299 | the store's new state is the replay of the enum removals |
| GroupGeometry.RecomputeMembership | packages/json-table-schema-visualizer/src/components/TableGroup/TableGroup.tsx:255-304 | the store's new state is the diff-and-apply of the specification, over the names found inside, with one more save when some delta is non-empty |
| TableDrag.TableHeight | packages/json-table-schema-visualizer/src/components/Table.tsx:54-58 | the colour band, the header row, one row per visible field and the small padding; at least the band plus one row |
| TableDrag.FoundGroup | packages/json-table-schema-visualizer/src/components/Table.tsx:87-101 | some group is found exactly when some group's closed rectangle holds the centre, and the found one is the last such group in map order |
| TableDrag.RemoveTableOther | packages/json-table-schema-visualizer/src/components/Table.tsx:105-109 | removing the table from one group leaves every other group as it was |
| TableDrag.AddTableOther | packages/json-table-schema-visualizer/src/components/Table.tsx:112-117 | adding the table to one group leaves every other group as it was |
| TableDrag.RemoveTableSame | packages/json-table-schema-visualizer/src/components/Table.tsx:105-109 | removing the table from a group keeps the group and filters the name from its list |
| TableDrag.RemoveFromGroupsEffect | packages/json-table-schema-visualizer/src/components/Table.tsx:105-126 | after visiting a prefix of the map, each visited group other than the kept one has lost the table, and every other list is as before |
| TableDrag.VisitSame | packages/json-table-schema-visualizer/src/components/Table.tsx:105-109 | the visit to a group drops the table from it unless it is the kept group, and keeps the group |
| TableDrag.VisitOther | packages/json-table-schema-visualizer/src/components/Table.tsx:105-109 | the visit to one group leaves every other group as it was |
| TableDrag.KeysOfGroups | packages/json-table-schema-visualizer/src/components/Table.tsx:105 | the removal loop visits exactly the groups that exist |
| TableDrag.DragEndMembership | packages/json-table-schema-visualizer/src/components/Table.tsx:77-128 | after a drop the found group lists the table (appended if it was absent), every other group has lost it, and no group appears or disappears |
| TableDrag.AtMostOneGroup | packages/json-table-schema-visualizer/src/components/Table.tsx:103-127 | after a drop the table is in a group exactly when that group is the one found under its centre, so it is in at most one group |
| TableDrag.HandleOnDragEnd | packages/json-table-schema-visualizer/src/components/Table.tsx:77-128 | the group store's new state is that of the specification for the table's centre; the store keeps its ids unique, and the table is listed in exactly the group found under its centre, or in none |
| TableDrag.FindGroup | packages/json-table-schema-visualizer/src/components/Table.tsx:87-101 | the containment scan returns the group the specification finds: the last one whose closed rectangle holds the centre |
| TableDrag.RemoveFromAll | packages/json-table-schema-visualizer/src/components/Table.tsx:105-126 | the removal loop's new state is the visit of every group in map order |
| SchemaSync.TupleGroups | packages/extension-shared/src/hooks/schema.ts:52-63 | the groups read from a persisted array of `[id, group]` tuples are slot 1 of every entry, one per entry, in order |
| SchemaSync.RedeliveryDropsNewGroup | packages/extension-shared/src/hooks/schema.ts:21-140 | as written, re-delivering a message switches the stores again; with localStorage failing and no snapshot entry, a group created since the first delivery is lost, while the intended handler keeps it |
| SchemaSync.MessageIdempotent | packages/extension-shared/src/hooks/schema.ts:29-81 | with the key test comparing against the key last switched to, delivering the same message twice leaves the stores as one delivery does |
| SchemaSync.SameKeyKeepsStores | packages/extension-shared/src/hooks/schema.ts:29-81 | with the key test comparing against the key last switched to, a message for the key already current leaves the table, enum and group stores and the key untouched and only replaces the schema (when the message is `setSchema` with an object payload) |
| SchemaSync.PersistedGroupsWin | packages/extension-shared/src/hooks/schema.ts:52-74 | when tuple-shaped groups are persisted under the new key's groups entry, the group store switches to exactly those groups, not the payload's |
| SchemaSync.PayloadGroupsWithoutSnapshot | packages/extension-shared/src/hooks/schema.ts:65-74 | with nothing persisted under the new key, the group store is initialised from the payload's groups (none when the payload has none) |
| SchemaSync.SwitchSavesAllStores | packages/extension-shared/src/hooks/schema.ts:37-74 | on every accepted message the outgoing table coordinates, enum coordinates and groups are each persisted under their old keys, and all three stores and the current key move to the new key |
| SchemaSync.SchemaView.constructor | packages/extension-shared/src/hooks/schema.ts:18-19 | a new view has no current key and no schema, and its listener has captured the key `null` |
| SchemaSync.SchemaView.HandleMessage | packages/extension-shared/src/hooks/schema.ts:21-81 | the new state of the view and of its three stores is the as-written synchronisation, which compares the message key with the captured `null` and so switches on every accepted message; the stores stay well-formed |
| SchemaSync.SchemaView.Unmount | packages/extension-shared/src/hooks/schema.ts:131-139 | unmounting persists the current maps of the table, enum and group stores, and changes nothing else |
| Fingerprint.Insert | packages/json-table-schema-visualizer/src/providers/TablesPositionsProvider.tsx:46-54 | inserting one name into a list adds exactly that name to its elements |
| Fingerprint.Sort | packages/json-table-schema-visualizer/src/providers/TablesPositionsProvider.tsx:46-54 | `.sort()` returns the same names, counted with multiplicity |
| Fingerprint.InsertSorted | packages/json-table-schema-visualizer/src/providers/TablesPositionsProvider.tsx:46-54 | inserting into an ordered list keeps it ordered |
| Fingerprint.SortSorted | packages/json-table-schema-visualizer/src/providers/TablesPositionsProvider.tsx:46-54 | `.sort()` returns an ordered list |
| Fingerprint.SortedUnique | packages/json-table-schema-visualizer/src/providers/TablesPositionsProvider.tsx:46-54 | two ordered lists with the same elements are equal, so the sort result does not depend on the input order |
| Fingerprint.TableNames | packages/json-table-schema-visualizer/src/providers/TablesPositionsProvider.tsx:46 | the k-th table name is the name of the k-th table |
| Fingerprint.RefPairs | packages/json-table-schema-visualizer/src/providers/TablesPositionsProvider.tsx:48-53 | the k-th pair is `source->target` of the k-th ref's two endpoints |
| Fingerprint.StructureFingerprint | packages/json-table-schema-visualizer/src/providers/TablesPositionsProvider.tsx:41-57 | the fingerprint's three lists are ordered and hold exactly the table names, the enum names and the ref pairs |
| Fingerprint.FingerprintIff | packages/json-table-schema-visualizer/src/providers/TablesPositionsProvider.tsx:39-57 | two schemas share a fingerprint if and only if they have the same table names, enum names and ref pairs, with multiplicity, in any order |
| Fingerprint.ReorderInvariant | packages/json-table-schema-visualizer/src/providers/TablesPositionsProvider.tsx:39-57 | reordering the tables, the refs or the enums leaves the fingerprint unchanged |
| Fingerprint.IgnoresFields | packages/json-table-schema-visualizer/src/providers/TablesPositionsProvider.tsx:39-57 | changing fields, or the field names of refs, leaves the fingerprint unchanged |
| Fingerprint.PairsCanCollide | packages/json-table-schema-visualizer/src/providers/TablesPositionsProvider.tsx:52 | the pair text does not separate its names: `a->b` referring to `c` gives the same pair as `a` referring to `b->c` |
| Fingerprint.PositionsProvider.constructor | packages/json-table-schema-visualizer/src/providers/TablesPositionsProvider.tsx:65-70 | a new provider has no remembered fingerprint |
| Fingerprint.PositionsProvider.OnStructure | packages/json-table-schema-visualizer/src/providers/TablesPositionsProvider.tsx:61-98 | the new fingerprint is remembered; both position stores are reset exactly when it differs from the last one and the preference is not `false`, and are left unchanged otherwise |
| Fingerprint.SkippedResetRemembered | packages/json-table-schema-visualizer/src/providers/TablesPositionsProvider.tsx:77-94 | a fingerprint already seen never resets; a new one resets unless the preference is `false` |
| DbmlGroups.Collapse | packages/dbml-to-json-table-schema/src/utils/transfomers/dbmlTableGroupToJSONTableGroup.ts:26 | replacing whitespace runs by `_` leaves no whitespace and never lengthens the name |
| DbmlGroups.CollapseKeepsSpaceFree | packages/dbml-to-json-table-schema/src/utils/transfomers/dbmlTableGroupToJSONTableGroup.ts:26 | a name without whitespace is kept as it is |
| DbmlGroups.CollapseIdempotent | packages/dbml-to-json-table-schema/src/utils/transfomers/dbmlTableGroupToJSONTableGroup.ts:26 | replacing twice is replacing once |
| DbmlGroups.CollapseSnoc | packages/dbml-to-json-table-schema/src/utils/transfomers/dbmlTableGroupToJSONTableGroup.ts:26 | a non-space character is copied, a space that starts a run becomes `_`, and a space continuing a run adds nothing |
| DbmlGroups.CollapseRunLength | packages/dbml-to-json-table-schema/src/utils/transfomers/dbmlTableGroupToJSONTableGroup.ts:26 | only whitespace runs matter, not their lengths: doubling a whitespace character changes nothing |
| DbmlGroups.CollapseAppendSpaceFree | packages/dbml-to-json-table-schema/src/utils/transfomers/dbmlTableGroupToJSONTableGroup.ts:26 | text without whitespace appended to a name is appended to the result |
| DbmlGroups.CollapseExample | packages/dbml-to-json-table-schema/src/utils/transfomers/dbmlTableGroupToJSONTableGroup.ts:26 | `Core  Tables` becomes `Core_Tables` |
| DbmlGroups.Decimal | packages/dbml-to-json-table-schema/src/utils/transfomers/dbmlTableGroupToJSONTableGroup.ts:26 | the index is written as at least one decimal digit with no leading zero |
| DbmlGroups.ParseDecimalRoundTrip | packages/dbml-to-json-table-schema/src/utils/transfomers/dbmlTableGroupToJSONTableGroup.ts:26 | reading the decimal text of an index gives the index back |
| DbmlGroups.GroupId | packages/dbml-to-json-table-schema/src/utils/transfomers/dbmlTableGroupToJSONTableGroup.ts:26 | the id starts with `group_` and contains no whitespace |
| DbmlGroups.FirstIndexOf | packages/dbml-to-json-table-schema/src/utils/transfomers/dbmlTableGroupToJSONTableGroup.ts:26 | the position found holds the character sought and no earlier position does |
| DbmlGroups.IndexOfGroupId | packages/dbml-to-json-table-schema/src/utils/transfomers/dbmlTableGroupToJSONTableGroup.ts:26 | the index is read back from the id it was built into |
| DbmlGroups.GroupIdsDistinct | packages/dbml-to-json-table-schema/src/utils/transfomers/dbmlTableGroupToJSONTableGroup.ts:26 | groups at different indexes never share an id, whatever their names |
| DbmlGroups.GroupIdExample | packages/dbml-to-json-table-schema/src/utils/transfomers/dbmlTableGroupToJSONTableGroup.ts:26 | group 0 named `Core  Tables` gets the id `group_0_Core_Tables` |
| DbmlGroups.DbmlTableGroupToJson | packages/dbml-to-json-table-schema/src/utils/transfomers/dbmlTableGroupToJSONTableGroup.ts:13-32 | the group keeps its name and colour, lists one qualified name per table in order, has no enums and no position or size |
| DbmlGroups.ConvertGroups | packages/dbml-to-json-table-schema/src/utils/transfomers/dbmlSchemaToJSONTableSchema.ts:26-28 | one group per DBML group, in order, each converted with its own position as index |
| DbmlGroups.ConvertedIdsUnique | packages/dbml-to-json-table-schema/src/utils/transfomers/dbmlSchemaToJSONTableSchema.ts:26-28 | the converted groups of one schema have pairwise distinct ids |
| DbmlGroups.QualifiedNames | packages/dbml-to-json-table-schema/src/utils/transfomers/dbmlTableGroupToJSONTableGroup.ts:17-23 | a table whose schema has a non-empty name is named `schema.table`; any other keeps its bare name |
| PrismaField.FieldTypeName | packages/prisma-to-json-table-schema/src/utils/transformers/getFieldTypeName.js:4-6 | a type given as a string is its own name; an object type gives its `name` |
| PrismaField.FirstExamined | packages/prisma-to-json-table-schema/src/utils/transformers/getFieldConfig.js:20-44 | the inner loop stops at the first argument that is a scalar, a key-value pair or a function call, and at no earlier one |
| PrismaField.FieldConfigSpec | packages/prisma-to-json-table-schema/src/utils/transformers/getFieldConfig.js:7-8 | an undefined attribute list gives the empty object and a defined one a full configuration |
| PrismaField.PkIffId | packages/prisma-to-json-table-schema/src/utils/transformers/getFieldConfig.js:46-48 | `pk` is true if and only if some attribute is named `id` |
| PrismaField.UniqueIffUnique | packages/prisma-to-json-table-schema/src/utils/transformers/getFieldConfig.js:49-51 | `unique` is true if and only if some attribute is named `unique` |
| PrismaField.IncrementIffAutoincrement | packages/prisma-to-json-table-schema/src/utils/transformers/getFieldConfig.js:36-42 | `increment` is true if and only if some default attribute's first examined argument calls `autoincrement` |
| PrismaField.NoDefaultIsNull | packages/prisma-to-json-table-schema/src/utils/transformers/getFieldConfig.js:9 | without a default attribute that has an examined argument, `dbdefault` stays `null` |
| PrismaField.DefaultArgsValue | packages/prisma-to-json-table-schema/src/utils/transformers/getFieldConfig.js:20-44 | the default is the scalar itself, the key-value's primitive value (a non-primitive one leaves everything unchanged) or the function's name; `pk` and `unique` are untouched |
| PrismaField.AutoincrementIdExample | packages/prisma-to-json-table-schema/src/utils/transformers/getFieldConfig.js:7-62 | `@id @default(autoincrement())` gives default `autoincrement`, increment and primary key, not unique |
| PrismaField.ExamineDefaultArgs | packages/prisma-to-json-table-schema/src/utils/transformers/getFieldConfig.js:20-44 | the argument loop with its `break`s computes the first examined argument's effect |
| PrismaField.GetFieldConfig | packages/prisma-to-json-table-schema/src/utils/transformers/getFieldConfig.js:7-62 | the switch over the attributes computes the configuration of the attribute list, in order |
| PrismaField.FormatIntermediateField | packages/prisma-to-json-table-schema/src/utils/transformers/intermediate/formatIntermediateField.js:6-19 | the field keeps its name, type name and list flag; it is not-null unless `optional` is true; it carries a configuration exactly when it has attributes |
| PrismaRelation.Scan | packages/prisma-to-json-table-schema/src/utils/transformers/intermediate/lookForRelation.js:17-58 | the attribute loop stops early only when `fields` is non-empty and as long as `references` |
| PrismaRelation.ApplyAppend | packages/prisma-to-json-table-schema/src/utils/transformers/intermediate/createIntermediateSchema.js:15-20 | applying two runs of callback calls one after the other is applying their concatenation |
| PrismaRelation.Registry.constructor | packages/prisma-to-json-table-schema/src/utils/transformers/intermediate/createIntermediateSchema.js:12-13 | the raw relations and the inverse map start empty |
| PrismaRelation.Registry.RegisterRawRelation | packages/prisma-to-json-table-schema/src/utils/transformers/intermediate/createIntermediateSchema.js:18-20 | the relation is appended to the raw relations, nothing else changes |
| PrismaRelation.Registry.RegisterInverseRelation | packages/prisma-to-json-table-schema/src/utils/transformers/intermediate/createIntermediateSchema.js:15-17 | the inverse map sets the key to the type, nothing else changes |
| PrismaRelation.ReadRelationArgs | packages/prisma-to-json-table-schema/src/utils/transformers/intermediate/lookForRelation.js:21-42 | the argument loop with its `continue`s computes the relation name, fields and references the arguments give |
| PrismaRelation.RegisterReferences | packages/prisma-to-json-table-schema/src/utils/transformers/intermediate/lookForRelation.js:47-55 | one raw relation is registered per reference, in order, all from `fields[0]` of this table to the field's type |
| PrismaRelation.LookForRelation | packages/prisma-to-json-table-schema/src/utils/transformers/intermediate/lookForRelation.js:7-72 | the registry receives exactly the registrations the field calls for, in order |
| PrismaRelation.CompleteRelationRegistersPerReference | packages/prisma-to-json-table-schema/src/utils/transformers/intermediate/lookForRelation.js:43-57 | a complete `@relation` registers one raw relation per reference and no inverse |
| PrismaRelation.IncompleteRelationInverse | packages/prisma-to-json-table-schema/src/utils/transformers/intermediate/lookForRelation.js:60-71 | otherwise nothing is registered for a scalar type, and one inverse relation under `table.type[.name]` for any other, `many` exactly for a list field |
| PrismaRelation.NameSources | packages/prisma-to-json-table-schema/src/utils/transformers/intermediate/lookForRelation.js:21-42 | the name changes only on a bare string or a `name:` pair with a string, and `fields`/`references` only on a pair of that key holding a relation array |
| PrismaRelation.SkipsOtherAttributes | packages/prisma-to-json-table-schema/src/utils/transformers/intermediate/lookForRelation.js:19-20 | attributes without arguments and attributes other than `@relation` are passed over |
| PrismaRelation.UnnamedInverse | packages/prisma-to-json-table-schema/src/utils/transformers/intermediate/lookForRelation.js:60-71 | a non-scalar field without attributes registers its inverse under `table.type` with no name |
| PrismaRelation.IdentifierRelationExample | packages/prisma-to-json-table-schema/src/utils/transformers/intermediate/tests/lookForRelation.test.js:6-23 | `@relation(fields: [productId], references: [id])` registers one raw relation `TestTable.productId -> Product.id` and no inverse |
| PrismaRelation.NamedKeyValueRelationExample | packages/prisma-to-json-table-schema/src/utils/transformers/intermediate/tests/lookForRelation.test.js:24-41 | a `name:` pair names the raw relation |
| PrismaRelation.NamedStringRelationExample | packages/prisma-to-json-table-schema/src/utils/transformers/intermediate/tests/lookForRelation.test.js:42-59 | a bare string argument names the raw relation |
| PrismaRelation.InverseRelationExample | packages/prisma-to-json-table-schema/src/utils/transformers/intermediate/tests/lookForRelation.test.js:60-75 | `orders Order[]` registers the inverse `TestTable.Order` as `many` and no raw relation |
| PrismaRelation.NamedInverseRelationExample | packages/prisma-to-json-table-schema/src/utils/transformers/intermediate/tests/lookForRelation.test.js:76-91 | `@relation("player1")` on a list field registers the inverse `TestTable.Match."player1"` as `many` |
| PrismaIntermediate.EnumValuesAppend | packages/prisma-to-json-table-schema/src/utils/transformers/enumNodeToJSONTableEnum.js:7-14 | the values of consecutive runs of entries are concatenated |
| PrismaIntermediate.SkipsNonEnumerators | packages/prisma-to-json-table-schema/src/utils/transformers/enumNodeToJSONTableEnum.js:8 | an entry that is not an enumerator adds no value |
| PrismaIntermediate.AllEnumerators | packages/prisma-to-json-table-schema/src/utils/transformers/enumNodeToJSONTableEnum.js:7-14 | when every entry is an enumerator, the k-th value is the k-th entry's name with its comment as note |
| PrismaIntermediate.EnumNodeToJsonEnum | packages/prisma-to-json-table-schema/src/utils/transformers/enumNodeToJSONTableEnum.js:5-20 | the enum keeps the block's name and holds the values of its enumerator entries, in order |
| PrismaIntermediate.ColorEnumExample | packages/prisma-to-json-table-schema/src/utils/transformers/tests/enumNodeToJSONTableEnum.test.js:5-17 | the enum `Color { Red }` has the single value `Red` |
| PrismaIntermediate.TableFieldsCount | packages/prisma-to-json-table-schema/src/utils/transformers/intermediate/formatIntermediateTable.js:13-25 | one intermediate field per field property, in order: the k-th field is the formatting of the k-th field property |
| PrismaIntermediate.EachBlockOneBranch | packages/prisma-to-json-table-schema/src/utils/transformers/intermediate/createIntermediateSchema.js:21-42 | each block goes to at most one branch: the enums and tables returned number exactly the enum and model blocks |
| PrismaIntermediate.NonFieldIgnored | packages/prisma-to-json-table-schema/src/utils/transformers/intermediate/formatIntermediateTable.js:14 | a property that is not a field adds neither a field nor a registration |
| PrismaIntermediate.TableFieldsFromFields | packages/prisma-to-json-table-schema/src/utils/transformers/intermediate/formatIntermediateTable.js:13-25 | every intermediate field is the formatting of some field property |
| PrismaIntermediate.FormatIntermediateTable | packages/prisma-to-json-table-schema/src/utils/transformers/intermediate/formatIntermediateTable.js:7-31 | the table keeps the model's name, holds its formatted fields in order and no indexes, and the registry receives every field's registrations in order |
| PrismaIntermediate.CreateIntermediateSchema | packages/prisma-to-json-table-schema/src/utils/transformers/intermediate/createIntermediateSchema.js:7-51 | the result is the enums, tables, name sets, raw relations and inverse map of the block list |
| PrismaIntermediate.EnumNamesMatchEnums | packages/prisma-to-json-table-schema/src/utils/transformers/intermediate/createIntermediateSchema.js:22-28 | `enumsNames` is exactly the set of names of the returned enums |
| PrismaIntermediate.TableNamesMatchTables | packages/prisma-to-json-table-schema/src/utils/transformers/intermediate/createIntermediateSchema.js:29-38 | `tablesNames` is exactly the set of names of the returned tables |
| PrismaIntermediate.OtherBlocksIgnored | packages/prisma-to-json-table-schema/src/utils/transformers/intermediate/createIntermediateSchema.js:21-42 | a block that is neither an enum nor a model changes nothing in the result |
| PrismaIntermediate.TablesInModelOrder | packages/prisma-to-json-table-schema/src/utils/transformers/intermediate/createIntermediateSchema.js:29-38 | one table per model, in model order, named after it |
| PrismaIntermediate.ApplyFromEmpty | packages/prisma-to-json-table-schema/src/utils/transformers/intermediate/createIntermediateSchema.js:12-20 | the raw relations are every registered relation in order, and the inverse map is the map the inverse registrations build |
| PrismaIntermediate.InverseMapKeepsLast | packages/prisma-to-json-table-schema/src/utils/transformers/intermediate/createIntermediateSchema.js:15-17 | for every key the inverse map keeps the type registered last |
| PrismaRefs.GetAppendFieldRelation | packages/prisma-to-json-table-schema/src/utils/transformers/createRefsFromPrismaASTNodes.js:12-21 | appending under a key extends that key's list (or starts it) and leaves every other key alone |
| PrismaRefs.CreateRefsAndFieldRelations | packages/prisma-to-json-table-schema/src/utils/transformers/createRefsFromPrismaASTNodes.js:5-66 | the loop computes the refs and the field-relation table of the raw relations |
| PrismaRefs.SkippedIff | packages/prisma-to-json-table-schema/src/utils/transformers/createRefsFromPrismaASTNodes.js:24-36 | a raw relation gives no ref if and only if neither table is a model or no inverse side is registered under its id |
| PrismaRefs.EmittedEndpoints | packages/prisma-to-json-table-schema/src/utils/transformers/createRefsFromPrismaASTNodes.js:37-51 | a ref keeps the relation's name; endpoint 0 is the `1` side on the referenced field, endpoint 1 the relation field, `*` exactly when the inverse type is `many` |
| PrismaRefs.RefsAppend | packages/prisma-to-json-table-schema/src/utils/transformers/createRefsFromPrismaASTNodes.js:22-64 | the refs of consecutive runs of raw relations are concatenated, so refs keep the raw order |
| PrismaRefs.RefsOfOne | packages/prisma-to-json-table-schema/src/utils/transformers/createRefsFromPrismaASTNodes.js:22-52 | a single raw relation gives its ref or nothing |
| PrismaRefs.RefsBound | packages/prisma-to-json-table-schema/src/utils/transformers/createRefsFromPrismaASTNodes.js:22-64 | there are never more refs than raw relations |
| PrismaRefs.GetAppendBoth | packages/prisma-to-json-table-schema/src/utils/transformers/createRefsFromPrismaASTNodes.js:53-63 | the two appends of an emitted ref extend, under each key, that key's list by the names appended under it |
| PrismaRefs.FieldRelationsCollect | packages/prisma-to-json-table-schema/src/utils/transformers/createRefsFromPrismaASTNodes.js:12-64 | under each key the table holds every name appended for it, in order and with duplicates, and nothing for a key never appended to |
| PrismaRefs.ManyInverseExample | packages/prisma-to-json-table-schema/src/utils/transformers/createRefsFromPrismaASTNodes.js:35-51 | a relation of a known model whose inverse registered `many` gives a one-to-many ref |
| PrismaJson.FieldToJsonShape | packages/prisma-to-json-table-schema/src/utils/transformers/intermediateFieldToJSONTableField.js:5-29 | `is_enum` iff the type names an enum; ` [ ]` is appended exactly for list types; `is_relation` iff the field's key has a non-empty related-table list, which becomes `relational_tables`; the rest is kept |
| PrismaJson.CountVirtual | packages/prisma-to-json-table-schema/src/utils/transformers/intermediateTableToJSONTableTable.js:16-21 | there are never more virtual fields than fields |
| PrismaJson.IntermediateTableToJsonTable | packages/prisma-to-json-table-schema/src/utils/transformers/intermediateTableToJSONTableTable.js:5-35 | the loop converts every field whose type is not a model, in order, and keeps the name and indexes |
| PrismaJson.FieldCount | packages/prisma-to-json-table-schema/src/utils/transformers/intermediateTableToJSONTableTable.js:12-33 | the output has one field per non-virtual input field |
| PrismaJson.ConvertFieldsAppend | packages/prisma-to-json-table-schema/src/utils/transformers/intermediateTableToJSONTableTable.js:12-33 | converting consecutive runs of fields concatenates the results, so kept fields stay in order |
| PrismaJson.NoVirtualKeepsAll | packages/prisma-to-json-table-schema/src/utils/transformers/intermediateTableToJSONTableTable.js:12-33 | a table without virtual fields keeps every field, the k-th output converting the k-th input |
| PrismaJson.ConvertTables | packages/prisma-to-json-table-schema/src/utils/transformers/prismaASTToJSONTableSchema.js:22-30 | one JSON table per intermediate table, in order |
| PrismaJson.PrismaAstToJsonTableSchema | packages/prisma-to-json-table-schema/src/utils/transformers/prismaASTToJSONTableSchema.js:7-32 | the result is the composed pipeline: converted tables, the intermediate enums and the refs |
| PrismaJson.OneTablePerModel | packages/prisma-to-json-table-schema/src/utils/transformers/prismaASTToJSONTableSchema.js:7-32 | the schema has one table per model, in model order, named after it |
| PrismaJson.EnumsPassThrough | packages/prisma-to-json-table-schema/src/utils/transformers/prismaASTToJSONTableSchema.js:7-32 | the schema's enums are one per enum block and their names are exactly the enum names |
| PrismaJson.RelationFlag | packages/prisma-to-json-table-schema/src/utils/transformers/intermediateFieldToJSONTableField.js:12-26 | a field is a relation exactly when some emitted ref appended a table under its key; its related tables are those names, in order |
| PrismaJson.EnumFlag | packages/prisma-to-json-table-schema/src/utils/transformers/intermediateFieldToJSONTableField.js:11 | a field's type is an enum exactly when an enum block of that name exists |

## Findings

| source | as written | input that shows it | evidently intended | confidence | as-written member | corrected member |
|---|---|---|---|---|---|---|
| packages/json-table-schema-visualizer/src/stores/tableGroups.ts:63-98 | `saveCurrentStore` hands the live group objects to `setItem`, which keeps them by reference in the host snapshot; the legacy fallback and `switchTo` reuse that same array, and `addTableToGroup` pushes into the shared object | host snapshot present, key `none`, group `g1` with tables `[a]`; `switchTo(k1)`, `addTableToGroup(g1, b)`, `switchTo(k2)`: `k2` opens with `[a, b]`, and the groups saved for `none` become `[a, b]` in the snapshot while localStorage keeps `[a]` | an edit changes only the current document's groups; `k2` opens with `[a]` | not executed | GroupAliasing.LegacyEditLeaks | TableGroups.LegacyEditStaysLocal |
| packages/extension-shared/src/hooks/schema.ts:21-140 | the listener, registered once with no dependencies, compares the message key with the `schemaKey` of the first render, `null`, so every message switches the stores again | no snapshot entry and localStorage failing; a `setSchema` message for `k`, then a new group, then the same message again: the stores are switched again and the new group is lost | a message for the key already current only reinstalls the schema | not executed | SchemaSync.RedeliveryDropsNewGroup | SchemaSync.MessageIdempotent |
| packages/json-table-schema-visualizer/src/utils/tablePositioning/computeElementsPositions.ts:102-109 | the first enum column starts eight horizontal gaps right of the rightmost table's left edge | gaps of 10, a 400-wide table at the origin and a one-value enum: the enum is placed at (80, -8) inside the table | enums are placed right of the tables' right edges and never overlap a table | not executed | EnumLayout.EnumOverlapsWideTable | EnumLayout.IntendedEnumsClearTables |

## Left out

- Extension-host I/O is not part of this model: the VS Code panel, file reads and writes, and the key-to-filename mapping.
- The `FILE_WRITE`/`FILE_DELETE` messages that `setItem`/`removeItem` post to the host are left out. They are fire-and-forget and nothing in the webview observes them.
- The `SCHEMA_RECEIVED` acknowledgement that `useSchema` posts back to the host is left out; it is messaging only.
- JSON parse and stringify are the identity on stored values. A malformed stored text is modelled by the "returns null" branch it leads to.
- Each store is given its own copy of the storage layers. Store names are distinct and colon-free, so stores never share a key. The one cross-store read, `useSchema` reading the persisted groups, goes through the group store's own storage. Aliasing between stores is therefore not modelled.
- A persisted group array of bare objects is kept as such for `useSchema`'s normalisation. The group store's own `switchTo` installs no groups from it. JavaScript would instead build a Map entry under the key `undefined`.
- A table and an enum with the same name become one dagre node (`computeElementsPositions.ts:64-74`), which the classification at lines 87-98 places as an enum; the table then has no position of its own. The model behaves the same (`EnumLayout.TableTopLeft`: an enum's name yields no table position), but no lemma describes the collapse further.
- The dagre graph layouts are a foreign library and are left out. Their table positions are an input to the enum packing. The branch without enums, which returns the dagre centres unchanged, is left out too.
- `getColsNumber`, `computeTableDimension`, `computeEnumDetailBoxMaxW`, `computeKey` and the sizing constants are not part of this model. They are parameters; the column count is required to be at least 1.
- Number-to-string formatting in the dashed path is a parameter `fmt`.
- Edge path geometry, symbol placement and text measurement are left out. They use square roots, floating-point formatting and canvas measurement.
- React and Konva rendering is left out: stage lookups, event-emitter wiring, state hooks and cursors. This includes the group drag end in `TableGroup.tsx` (lines 101-135) and the resize `handleMouseUp` (lines 207-233). Both only call store operations modelled here (`setGroupDimensions`, `saveCurrentStore`) and then the membership recomputation modelled here.
- The stage-state and detail-level stores that `useSchema` also switches are not part of this model.
- The 50 ms polling in `RelationConnection.tsx` is left out; it is timing only.
- Ids made from `Date.now()` and `Math.random()` are passed in as parameters.
- Fingerprint.Sort: orders strings by Dafny's character order, not JavaScript's UTF-16 code-unit order. The fingerprint properties hold for any total order.
- Prisma AST values are never `null`. `isFunNodeType` on `undefined`, which throws in JavaScript, is not modelled.
- Attribute arguments are modelled without their `{ value }` wrapper: an argument is its `value`.
- The Prisma parser wrapper and the rest of the DBML schema conversion are not part of this model; only the group conversion and its `map` call are.
- TableGroups.TableGroupsStore.AddTableToGroup: saved groups are modelled as copies, so the contract says other documents' saved groups are unchanged; the shared objects and the edit reaching other documents are modelled in `GroupAliasing` (see Findings).
- TableGroups.TableGroupsStore.RemoveTableFromGroup: saved groups are modelled as copies; the reassigned list reaching other documents that share the object is modelled in `GroupAliasing.RemoveTableReachesOtherKeys`.
- TableGroups.TableGroupsStore.AddEnumToGroup: saved groups are modelled as copies; the in-place edit reaching other documents is modelled in `GroupAliasing.EditReachesOtherKeys`.
- TableGroups.TableGroupsStore.RemoveEnumFromGroup: saved groups are modelled as copies; the in-place edit reaching other documents is modelled in `GroupAliasing.EditReachesOtherKeys`.
- TableGroups.TableGroupsStore.SwitchTo: the groups read back are modelled as copies, not as the objects the snapshot shares with the previous document; see `GroupAliasing.Switch`.
- ControlPoints.ConnectionControlPointsStore.AddControlPoint: the host snapshot keeps the live per-connection arrays that `saveCurrentStore` hands over (`connectionControlPoints.ts:97-99`), and `addControlPoint` pushes into them in place (line 33). When `localStorage.setItem` throws, the snapshot in the source still shows the pushed point; the model's snapshot does not, because it stores copies.
- ControlPoints.ConnectionControlPointsStore.MoveControlPoint: the same sharing applies to the in-place slot assignment at `connectionControlPoints.ts:50`; with a throwing `setItem` the source's snapshot shows the moved point and the model's does not.
- `GroupAliasing` tracks which group object each saved pair points at and nothing finer. Arrays shared through spread copies (`setGroupDimensions`, `setGroup`, `createGroup`, `initGroups`) are modelled as new values. It assumes a host snapshot and a working localStorage.
- `defaultTableCoord` comes from a constants module that is not part of this model; `Common.DefaultCoord` takes it to be (0, 0).
- A `setSchema` message whose payload is `null` passes the `typeof … === "object"` test at `schema.ts:24` and then throws when its tables are read; the model treats such a message as rejected, changing nothing.
