/** `PersistableStore`: the base of every persisted store. It namespaces each
    name it persists under its store name (`storeName:name`) and forwards to a
    storage object, an `AppLocalStorage` unless one is supplied. */
module Persistable {
  import opened Common
  import opened LocalStorage

  /** `createPersistanceKey`. */
  function PersistenceKey(storeName: string, name: string): string {
    storeName + ":" + name
  }

  /** Splits a key at its first colon: the inverse of `PersistenceKey` for a
      colon-free store name. */
  function SplitAtFirstColon(k: string): (r: Option<(string, string)>)
    ensures r.Some? ==> r.value.0 + ":" + r.value.1 == k && ':' !in r.value.0
    ensures r.None? ==> ':' !in k
  {
    if k == [] then None
    else if k[0] == ':' then Some(([], k[1..]))
    else match SplitAtFirstColon(k[1..])
      case None => None
      case Some(p) => Some(([k[0]] + p.0, p.1))
  }

  /** The store name and the name can be read back from a persistence key. */
  lemma {:induction false} SplitPersistenceKey(storeName: string, name: string)
    requires ':' !in storeName
    ensures SplitAtFirstColon(PersistenceKey(storeName, name)) == Some((storeName, name))
  {
    if storeName != [] {
      SplitPersistenceKey(storeName[1..], name);
      assert PersistenceKey(storeName, name)[1..] == PersistenceKey(storeName[1..], name);
      assert [storeName[0]] + storeName[1..] == storeName;
    } else {
      assert PersistenceKey(storeName, name) == [':'] + name;
    }
  }

  /** Stores with different colon-free names never write the same key, and one
      store writes distinct keys for distinct names. */
  lemma DistinctNamespaces(a: string, x: string, b: string, y: string)
    requires ':' !in a && ':' !in b
    requires a != b || x != y
    ensures PersistenceKey(a, x) != PersistenceKey(b, y)
  {
    SplitPersistenceKey(a, x);
    SplitPersistenceKey(b, y);
  }

  /** Through map-like storage, `retrieve(name)` after `persist(name, v)` is
      `v`, and no key outside `storeName:name` changed. */
  lemma RetrieveAfterPersist<T>(s: StorageState<T>, storeName: string, name: string, v: T)
    requires Working(s)
    ensures var s' := SetItemSpec(s, PersistenceKey(storeName, name), v);
      && GetItemSpec(s', PersistenceKey(storeName, name)).1 == Some(v)
      && forall k :: k != PersistenceKey(storeName, name) ==>
           LocalAt(s', k) == LocalAt(s, k) && SnapshotAt(s', k) == SnapshotAt(s, k)
  {
    GetAfterSet(s, PersistenceKey(storeName, name), v);
  }

  /** Through map-like storage, `retrieve(name)` after `clear(name)` is null for
      every store other than `tableGroups`, whose legacy fallback may answer. */
  lemma RetrieveAfterClear<T>(s: StorageState<T>, storeName: string, name: string)
    requires s.localAvailable
    requires ':' !in storeName && storeName != "tableGroups"
    ensures GetItemSpec(RemoveItemSpec(s, PersistenceKey(storeName, name)), PersistenceKey(storeName, name)).1 == None
  {
    var k := PersistenceKey(storeName, name);
    GetAfterRemove(s, k);
    NotGroupsKey(storeName, name);
  }

  /** Only the store named `tableGroups` writes keys the legacy rule reads. */
  lemma NotGroupsKey(storeName: string, name: string)
    requires ':' !in storeName && storeName != "tableGroups"
    ensures !StartsWith(PersistenceKey(storeName, name), GroupsPrefix)
  {
    var k := PersistenceKey(storeName, name);
    if |k| >= 12 {
      if |storeName| < 11 {
        assert k[|storeName|] == ':' != GroupsPrefix[|storeName|];
      } else if |storeName| == 11 {
        assert k[..11] == storeName != GroupsPrefix[..11];
      } else {
        assert k[11] == storeName[11] != ':';
      }
    }
  }

  class PersistableStore<T> {
    const storeName: string
    const storage: AppLocalStorage<T>

    /** Uses the supplied storage, otherwise a new `AppLocalStorage` over the
        window's layers. */
    constructor (storeName: string, storage: Option<AppLocalStorage<T>>, window: StorageState<T>)
      ensures this.storeName == storeName
      ensures storage.Some? ==> this.storage == storage.value
      ensures storage.None? ==> fresh(this.storage) && this.storage.State() == window
    {
      this.storeName := storeName;
      if storage.Some? {
        this.storage := storage.value;
      } else {
        this.storage := new AppLocalStorage(window);
      }
    }

    function Key(name: string): string {
      PersistenceKey(storeName, name)
    }

    /** `persist(name, value)`: one `setItem` under the namespaced key. */
    method Persist(name: string, v: T)
      modifies storage
      ensures storage.State() == SetItemSpec(old(storage.State()), Key(name), v)
    {
      storage.SetItem(Key(name), v);
    }

    /** `retrieve(name)`: one `getItem` under the namespaced key. */
    method Retrieve(name: string) returns (r: Option<T>)
      modifies storage
      ensures (storage.State(), r) == GetItemSpec(old(storage.State()), Key(name))
    {
      r := storage.GetItem(Key(name));
    }

    /** `clear(name)`: one `removeItem` under the namespaced key. */
    method Clear(name: string)
      modifies storage
      ensures storage.State() == RemoveItemSpec(old(storage.State()), Key(name))
    {
      storage.RemoveItem(Key(name));
    }
  }
}
