/** What `TableCoordsStore` and `EnumCoordsStore` have in common: the state
    they keep (the position map and the current document key, over their
    storage) and the meaning of `saveCurrentStore`, `resetPositions`,
    `switchTo`, `getCoords`, `setCoords` and `remove`, as functions of that
    state. The two stores differ only in their store name and in the layout
    that supplies computed positions. */
module CoordsStore {
  import opened Common
  import opened JsMap
  import opened LocalStorage
  import opened Persistable
  import opened PositionMerge

  /** What a position store persists, `Array.from(map)`, or any value read
      back that is not an array. */
  datatype CoordsValue = CoordArray(entries: Entries<XY>) | NotAnArray

  /** The key a store starts with, before any document is opened. */
  const InitialStoreKey: string := "none"

  /** The state of a position store: its storage, its map, its current key
      and the maps it has emitted with its reset event, oldest first. */
  datatype StoreState = StoreState(
    storage: StorageState<CoordsValue>,
    coords: Entries<XY>,
    key: string,
    resets: seq<Entries<XY>>)

  /** `recovered !== null && Array.isArray(recovered)`. */
  function Recovered(v: Option<CoordsValue>): Option<Entries<XY>> {
    if v.Some? && v.value.CoordArray? then Some(v.value.entries) else None
  }

  /** `getCoords`: the stored position, or the default sentinel. */
  function GetCoords(coords: Entries<XY>, name: string): XY {
    Get(coords, name).GetOr(DefaultCoord)
  }

  /** `saveCurrentStore`: persist `Array.from(map)` under the current key. */
  function SaveSpec(storeName: string, st: StoreState): StoreState {
    st.(storage := SetItemSpec(st.storage, PersistenceKey(storeName, st.key), CoordArray(st.coords)))
  }

  /** `resetPositions`: merge, install, emit; nothing is persisted. */
  function ResetSpec(storeName: string, st: StoreState, names: seq<string>, computed: Entries<XY>): StoreState {
    var (s1, v) := GetItemSpec(st.storage, PersistenceKey(storeName, st.key));
    var merged := Merge(st.coords, Recovered(v), names, computed);
    st.(storage := s1, coords := merged, resets := st.resets + [merged])
  }

  /** `switchTo`: save the outgoing map, move to the new key, then hydrate from
      whatever array is stored there or, failing that, reset. */
  function SwitchSpec(storeName: string, st: StoreState, newKey: string, names: seq<string>,
                      computed: Entries<XY>): StoreState {
    var st1 := SaveSpec(storeName, st).(key := newKey);
    var (s2, v) := GetItemSpec(st1.storage, PersistenceKey(storeName, newKey));
    if Recovered(v).Some? then st1.(storage := s2, coords := FromEntries(Recovered(v).value))
    else ResetSpec(storeName, st1.(storage := s2), names, computed)
  }

  /** `setCoords`: set one entry, then save. */
  function SetCoordsSpec(storeName: string, st: StoreState, name: string, xy: XY): StoreState {
    SaveSpec(storeName, st.(coords := Set(st.coords, name, xy)))
  }

  /** `remove`: delete one entry, without saving. */
  function RemoveSpec(st: StoreState, name: string): StoreState {
    st.(coords := Delete(st.coords, name))
  }

  /** `getCoords` answers the stored position exactly when there is one. */
  lemma GetCoordsDefault(coords: Entries<XY>, name: string)
    ensures Has(coords, name) ==> GetCoords(coords, name) == Get(coords, name).value
    ensures !Has(coords, name) ==> GetCoords(coords, name) == XY(0.0, 0.0)
  {
  }

  lemma KeysDiffer(storeName: string, a: string, b: string)
    requires a != b
    ensures PersistenceKey(storeName, a) != PersistenceKey(storeName, b)
  {
    assert PersistenceKey(storeName, a)[|storeName| + 1..] == a;
    assert PersistenceKey(storeName, b)[|storeName| + 1..] == b;
  }

  /** `setCoords` changes exactly one entry and leaves the whole new map
      persisted under the current key. */
  lemma SetCoordsEffect(storeName: string, st: StoreState, name: string, xy: XY, other: string)
    requires Working(st.storage)
    ensures var st' := SetCoordsSpec(storeName, st, name, xy);
      && Get(st'.coords, other) == (if other == name then Some(xy) else Get(st.coords, other))
      && Holds(st'.storage, PersistenceKey(storeName, st.key), CoordArray(st'.coords))
      && st'.key == st.key && st'.resets == st.resets
  {
    GetSet(st.coords, name, xy, other);
    SetHolds(st.storage, PersistenceKey(storeName, st.key), CoordArray(Set(st.coords, name, xy)));
  }

  /** `remove` deletes one entry and touches neither storage nor the key. */
  lemma RemoveEffect(st: StoreState, name: string, other: string)
    ensures var st' := RemoveSpec(st, name);
      && Get(st'.coords, other) == (if other == name then None else Get(st.coords, other))
      && st'.storage == st.storage && st'.key == st.key
  {
    GetDelete(st.coords, name, other);
  }

  /** `resetPositions` persists nothing: localStorage is unchanged, values
      held anywhere stay held, and the merged map is what it emits. */
  lemma ResetDoesNotPersist(storeName: string, st: StoreState, names: seq<string>, computed: Entries<XY>,
                            k: string, v: CoordsValue)
    ensures var st' := ResetSpec(storeName, st, names, computed);
      && st'.storage.local == st.storage.local
      && (Holds(st.storage, k, v) ==> Holds(st'.storage, k, v))
      && st'.resets == st.resets + [st'.coords] && st'.key == st.key
  {
    GetItemFrame(st.storage, PersistenceKey(storeName, st.key));
    if Holds(st.storage, k, v) {
      HoldsAfterGet(st.storage, k, v, PersistenceKey(storeName, st.key));
    }
  }

  /** `resetPositions` only brings computed positions to listed names: any
      other name ends up with its persisted or in-memory position, or none. */
  lemma ResetOutsideNames(storeName: string, st: StoreState, names: seq<string>, computed: Entries<XY>, k: string)
    requires k !in names
    ensures var v := GetItemSpec(st.storage, PersistenceKey(storeName, st.key)).1;
      var rec := Recovered(v);
      Get(ResetSpec(storeName, st, names, computed).coords, k) ==
        if rec.Some? && LastValue(rec.value, k).Some? then LastValue(rec.value, k) else Get(st.coords, k)
  {
    var v := GetItemSpec(st.storage, PersistenceKey(storeName, st.key)).1;
    MergePrecedence(st.coords, Recovered(v), names, computed, k);
  }

  /** `switchTo` persists the outgoing map under the old key, first thing,
      and that value survives the rest of the switch. */
  lemma SwitchSavesOutgoing(storeName: string, st: StoreState, newKey: string, names: seq<string>,
                            computed: Entries<XY>)
    requires Working(st.storage)
    ensures var st' := SwitchSpec(storeName, st, newKey, names, computed);
      Holds(st'.storage, PersistenceKey(storeName, st.key), CoordArray(st.coords)) && st'.key == newKey
  {
    var k := PersistenceKey(storeName, st.key);
    var st1 := SaveSpec(storeName, st).(key := newKey);
    SetHolds(st.storage, k, CoordArray(st.coords));
    var (s2, v) := GetItemSpec(st1.storage, PersistenceKey(storeName, newKey));
    HoldsAfterGet(st1.storage, k, CoordArray(st.coords), PersistenceKey(storeName, newKey));
    if Recovered(v).None? {
      ResetDoesNotPersist(storeName, st1.(storage := s2), names, computed, k, CoordArray(st.coords));
    }
  }

  /** `switchTo` hydrates verbatim from any array stored under the new key,
      the empty array included, and then emits no reset. */
  lemma SwitchHydrates(storeName: string, st: StoreState, newKey: string, names: seq<string>,
                       computed: Entries<XY>, stored: Entries<XY>)
    requires newKey != st.key && NoDupKeys(stored)
    requires Holds(st.storage, PersistenceKey(storeName, newKey), CoordArray(stored))
    ensures var st' := SwitchSpec(storeName, st, newKey, names, computed);
      st'.coords == stored && st'.resets == st.resets
  {
    var kNew := PersistenceKey(storeName, newKey);
    KeysDiffer(storeName, st.key, newKey);
    HoldsAfterSet(st.storage, kNew, CoordArray(stored), PersistenceKey(storeName, st.key), CoordArray(st.coords));
    ReadHeld(SaveSpec(storeName, st).storage, kNew, CoordArray(stored));
    FromEntriesOfUnique(stored);
  }

  /** Switching from document A to B and back to A restores A's map exactly,
      whatever B's layout does, given map-like storage. */
  lemma SwitchRoundTrip(storeName: string, st: StoreState, b: string,
                        namesB: seq<string>, computedB: Entries<XY>, namesA: seq<string>, computedA: Entries<XY>)
    requires Working(st.storage) && NoDupKeys(st.coords) && b != st.key
    ensures SwitchSpec(storeName, SwitchSpec(storeName, st, b, namesB, computedB), st.key, namesA, computedA).coords
            == st.coords
  {
    var st1 := SwitchSpec(storeName, st, b, namesB, computedB);
    SwitchSavesOutgoing(storeName, st, b, namesB, computedB);
    SwitchHydrates(storeName, st1, st.key, namesA, computedA, st.coords);
  }

  /** With an empty array stored under the new key the store comes up empty:
      the layout is not consulted. */
  lemma SwitchToEmptyArray(storeName: string, st: StoreState, newKey: string, names: seq<string>,
                           computed: Entries<XY>)
    requires newKey != st.key
    requires Holds(st.storage, PersistenceKey(storeName, newKey), CoordArray([]))
    ensures SwitchSpec(storeName, st, newKey, names, computed).coords == []
  {
    SwitchHydrates(storeName, st, newKey, names, computed, []);
  }

  /** Every operation keeps the map key-unique. */
  lemma SwitchNoDup(storeName: string, st: StoreState, newKey: string, names: seq<string>, computed: Entries<XY>)
    requires NoDupKeys(st.coords)
    ensures NoDupKeys(SwitchSpec(storeName, st, newKey, names, computed).coords)
  {
    var st1 := SaveSpec(storeName, st).(key := newKey);
    var (s2, v) := GetItemSpec(st1.storage, PersistenceKey(storeName, newKey));
    if Recovered(v).Some? {
      FromEntriesNoDup(Recovered(v).value);
    } else {
      var v2 := GetItemSpec(s2, PersistenceKey(storeName, newKey)).1;
      MergeNoDup(st.coords, Recovered(v2), names, computed);
    }
  }
}
