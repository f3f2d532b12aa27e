/** `TableCoordsStore`: the positions of the tables of the open document,
    persisted per document under `tableCoords:<key>`. Its layout for tables
    without a position is the grid of `computeTablesPositions`. */
module TableCoords {
  import opened Common
  import opened JsMap
  import opened LocalStorage
  import opened Persistable
  import opened PositionMerge
  import opened CoordsStore
  import opened TablesGrid

  const StoreName: string := "tableCoords"

  class TableCoordsStore {
    const base: PersistableStore<CoordsValue>
    var tableCoords: Entries<XY>
    var currentStoreKey: string
    /** The maps emitted with `tableCoords:resetTablesPositions`, oldest first. */
    var resets: seq<Entries<XY>>

    ghost predicate Valid()
      reads this
    {
      base.storeName == StoreName && NoDupKeys(tableCoords)
    }

    function State(): StoreState
      reads this, base.storage
    {
      StoreState(base.storage.State(), tableCoords, currentStoreKey, resets)
    }

    constructor (storage: Option<AppLocalStorage<CoordsValue>>, window: StorageState<CoordsValue>)
      ensures Valid()
      ensures tableCoords == [] && currentStoreKey == InitialStoreKey && resets == []
      ensures storage.Some? ==> base.storage == storage.value
      ensures storage.None? ==> fresh(base.storage) && base.storage.State() == window
    {
      base := new PersistableStore(StoreName, storage, window);
      tableCoords := [];
      currentStoreKey := InitialStoreKey;
      resets := [];
    }

    method GetCoords(table: string) returns (xy: XY)
      ensures xy == CoordsStore.GetCoords(tableCoords, table)
    {
      var r := Get(tableCoords, table);
      xy := if r.Some? then r.value else DefaultCoord;
    }

    method SaveCurrentStore()
      requires Valid()
      modifies base.storage
      ensures State() == SaveSpec(StoreName, old(State()))
    {
      base.Persist(currentStoreKey, CoordArray(tableCoords));
    }

    method ResetPositions(tables: seq<string>, cols: nat, sz: Sizing)
      requires Valid() && cols >= 1
      modifies this, base.storage
      ensures Valid()
      ensures State() == ResetSpec(StoreName, old(State()), tables, Grid(tables, cols, sz))
    {
      var computed := ComputeTablesPositions(tables, cols, sz);
      var recovered := base.Retrieve(currentStoreKey);
      var merged := MergePositions(tableCoords, Recovered(recovered), tables, computed);
      MergeNoDup(tableCoords, Recovered(recovered), tables, computed);
      tableCoords := merged;
      resets := resets + [merged];
    }

    method SwitchTo(newStoreKey: string, newTables: seq<string>, cols: nat, sz: Sizing)
      requires Valid() && cols >= 1
      modifies this, base.storage
      ensures Valid()
      ensures State() == SwitchSpec(StoreName, old(State()), newStoreKey, newTables, Grid(newTables, cols, sz))
    {
      SaveCurrentStore();
      currentStoreKey := newStoreKey;
      var recoveredStore := base.Retrieve(currentStoreKey);
      if Recovered(recoveredStore).None? {
        ResetPositions(newTables, cols, sz);
        return;
      }
      FromEntriesNoDup(Recovered(recoveredStore).value);
      tableCoords := FromEntries(Recovered(recoveredStore).value);
    }

    method SetCoords(table: string, xy: XY)
      requires Valid()
      modifies this, base.storage
      ensures Valid()
      ensures State() == SetCoordsSpec(StoreName, old(State()), table, xy)
    {
      SetNoDup(tableCoords, table, xy);
      tableCoords := Set(tableCoords, table, xy);
      SaveCurrentStore();
    }

    method Remove(table: string)
      requires Valid()
      modifies this
      ensures Valid()
      ensures State() == RemoveSpec(old(State()), table)
    {
      DeleteNoDup(tableCoords, table);
      tableCoords := Delete(tableCoords, table);
    }
  }
}
