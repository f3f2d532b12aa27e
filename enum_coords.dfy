/** `EnumCoordsStore`: the positions of the enums of the open document,
    persisted per document under `enumCoords:<key>`. Positions for enums
    without one come from `computeElementsPositions`, whose dagre pass is not
    part of this model: its result map is the parameter `computed`, of which
    only the entries of listed enums are ever used. */
module EnumCoords {
  import opened Common
  import opened JsMap
  import opened LocalStorage
  import opened Persistable
  import opened PositionMerge
  import opened CoordsStore

  const StoreName: string := "enumCoords"

  class EnumCoordsStore {
    const base: PersistableStore<CoordsValue>
    var enumCoords: Entries<XY>
    var currentStoreKey: string
    /** The maps emitted with `enumCoords:resetEnumsPositions`, oldest first. */
    var resets: seq<Entries<XY>>

    ghost predicate Valid()
      reads this
    {
      base.storeName == StoreName && NoDupKeys(enumCoords)
    }

    function State(): StoreState
      reads this, base.storage
    {
      StoreState(base.storage.State(), enumCoords, currentStoreKey, resets)
    }

    constructor (storage: Option<AppLocalStorage<CoordsValue>>, window: StorageState<CoordsValue>)
      ensures Valid()
      ensures enumCoords == [] && currentStoreKey == InitialStoreKey && resets == []
      ensures storage.Some? ==> base.storage == storage.value
      ensures storage.None? ==> fresh(base.storage) && base.storage.State() == window
    {
      base := new PersistableStore(StoreName, storage, window);
      enumCoords := [];
      currentStoreKey := InitialStoreKey;
      resets := [];
    }

    method GetCoords(name: string) returns (xy: XY)
      ensures xy == CoordsStore.GetCoords(enumCoords, name)
    {
      var r := Get(enumCoords, name);
      xy := if r.Some? then r.value else DefaultCoord;
    }

    method SaveCurrentStore()
      requires Valid()
      modifies base.storage
      ensures State() == SaveSpec(StoreName, old(State()))
    {
      base.Persist(currentStoreKey, CoordArray(enumCoords));
    }

    method ResetPositions(enums: seq<string>, computed: Entries<XY>)
      requires Valid()
      modifies this, base.storage
      ensures Valid()
      ensures State() == ResetSpec(StoreName, old(State()), enums, computed)
    {
      var recovered := base.Retrieve(currentStoreKey);
      var merged := MergePositions(enumCoords, Recovered(recovered), enums, computed);
      MergeNoDup(enumCoords, Recovered(recovered), enums, computed);
      enumCoords := merged;
      resets := resets + [merged];
    }

    method SwitchTo(newStoreKey: string, enums: seq<string>, computed: Entries<XY>)
      requires Valid()
      modifies this, base.storage
      ensures Valid()
      ensures State() == SwitchSpec(StoreName, old(State()), newStoreKey, enums, computed)
    {
      SaveCurrentStore();
      currentStoreKey := newStoreKey;
      var recoveredStore := base.Retrieve(currentStoreKey);
      if Recovered(recoveredStore).None? {
        ResetPositions(enums, computed);
        return;
      }
      FromEntriesNoDup(Recovered(recoveredStore).value);
      enumCoords := FromEntries(Recovered(recoveredStore).value);
    }

    method SetCoords(name: string, xy: XY)
      requires Valid()
      modifies this, base.storage
      ensures Valid()
      ensures State() == SetCoordsSpec(StoreName, old(State()), name, xy)
    {
      SetNoDup(enumCoords, name, xy);
      enumCoords := Set(enumCoords, name, xy);
      SaveCurrentStore();
    }

    method Remove(name: string)
      requires Valid()
      modifies this
      ensures Valid()
      ensures State() == RemoveSpec(old(State()), name)
    {
      DeleteNoDup(enumCoords, name);
      enumCoords := Delete(enumCoords, name);
    }
  }
}
