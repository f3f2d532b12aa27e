/** `AppLocalStorage`: the webview's two-layer key/value storage. The first
    layer is the host-injected snapshot `window.EXTENSION_PERSISTED_DATA`,
    which may be absent; the second is the browser's `localStorage`, which may
    hold text that does not parse and whose every access may throw. JSON
    serialisation is the identity on the stored value type `T`. */
module LocalStorage {
  import opened Common

  /** What `localStorage` holds under a key: text that parses to a value, or
      text on which `JSON.parse` throws. */
  datatype Raw<T> = Parsed(value: T) | Malformed

  /** The state both layers are in. `localAvailable` is false when every
      `localStorage` call throws (storage disabled), whatever `localWritable`
      says; `localWritable` is false when `localStorage.setItem` throws (over
      quota), which leaves `getItem` and `removeItem` working on the older
      contents. */
  datatype StorageState<T> = StorageState(
    snapshot: Option<map<string, T>>,
    local: map<string, Raw<T>>,
    localAvailable: bool,
    localWritable: bool)

  /** Both kinds of `localStorage` call succeed. */
  predicate Working<T>(s: StorageState<T>) {
    s.localAvailable && s.localWritable
  }

  const GroupsPrefix: string := "tableGroups:"
  const LegacyGroupsKey: string := "tableGroups:none"

  /** The legacy rule: a `tableGroups:*` key missing from the snapshot reads
      the snapshot's `tableGroups:none` entry, if there is one. */
  predicate LegacyApplies<T>(s: StorageState<T>, key: string) {
    && s.snapshot.Some?
    && key !in s.snapshot.value
    && StartsWith(key, GroupsPrefix)
    && LegacyGroupsKey in s.snapshot.value
  }

  /** `getItem(key)`: the new state (the snapshot doubles as a read cache) and
      the value read, None standing for `null`. */
  function GetItemSpec<T>(s: StorageState<T>, key: string): (StorageState<T>, Option<T>)
  {
    if s.snapshot.Some? && key in s.snapshot.value then
      (s, Some(s.snapshot.value[key]))
    else if LegacyApplies(s, key) then
      var legacy := s.snapshot.value[LegacyGroupsKey];
      (s.(snapshot := Some(s.snapshot.value[key := legacy])), Some(legacy))
    else if !s.localAvailable || key !in s.local || s.local[key].Malformed? then
      (s, None)
    else
      var v := s.local[key].value;
      (s.(snapshot := if s.snapshot.Some? then Some(s.snapshot.value[key := v]) else None), Some(v))
  }

  /** `setItem(key, value)`: localStorage first; if that throws (storage
      disabled or not writable) nothing else happens, otherwise the snapshot
      (when present) is updated too. */
  function SetItemSpec<T>(s: StorageState<T>, key: string, v: T): StorageState<T>
  {
    if !s.localAvailable || !s.localWritable then s
    else s.(local := s.local[key := Parsed(v)],
            snapshot := if s.snapshot.Some? then Some(s.snapshot.value[key := v]) else None)
  }

  /** `removeItem(key)`: both layers drop the key, unless localStorage throws. */
  function RemoveItemSpec<T>(s: StorageState<T>, key: string): StorageState<T>
  {
    if !s.localAvailable then s
    else s.(local := s.local - {key},
            snapshot := if s.snapshot.Some? then Some(s.snapshot.value - {key}) else None)
  }

  /** The value a key holds in a layer, None when the layer lacks it. */
  function SnapshotAt<T>(s: StorageState<T>, k: string): Option<T> {
    if s.snapshot.Some? && k in s.snapshot.value then Some(s.snapshot.value[k]) else None
  }

  function LocalAt<T>(s: StorageState<T>, k: string): Option<Raw<T>> {
    if k in s.local then Some(s.local[k]) else None
  }

  /** A snapshot hit returns the snapshot value and neither reads nor changes
      localStorage: any localStorage contents give the same answer. */
  lemma SnapshotHitShortCircuits<T>(s: StorageState<T>, key: string, local: map<string, Raw<T>>, avail: bool)
    requires s.snapshot.Some? && key in s.snapshot.value
    ensures GetItemSpec(s, key) == (s, Some(s.snapshot.value[key]))
    ensures GetItemSpec(s.(local := local, localAvailable := avail), key).1 == GetItemSpec(s, key).1
  {
  }

  /** The legacy fallback returns the `tableGroups:none` value and caches it
      under the requested key, touching no other key. */
  lemma LegacyFallback<T>(s: StorageState<T>, key: string)
    requires LegacyApplies(s, key)
    ensures GetItemSpec(s, key).1 == Some(s.snapshot.value[LegacyGroupsKey])
    ensures SnapshotAt(GetItemSpec(s, key).0, key) == Some(s.snapshot.value[LegacyGroupsKey])
    ensures forall k :: k != key ==> SnapshotAt(GetItemSpec(s, key).0, k) == SnapshotAt(s, k)
    ensures GetItemSpec(s, key).0.local == s.local
  {
  }

  /** Past both snapshot rules, a localStorage miss (or failure) reads null and
      a hit is copied into the snapshot, so the next read takes the fast path. */
  lemma LocalFallback<T>(s: StorageState<T>, key: string)
    requires SnapshotAt(s, key).None? && !LegacyApplies(s, key)
    ensures var (s', r) := GetItemSpec(s, key);
      && s'.local == s.local
      && (r.Some? <==> s.localAvailable && LocalAt(s, key).Some? && s.local[key].Parsed?)
      && (r.Some? ==> r.value == s.local[key].value)
      && (r.Some? && s.snapshot.Some? ==> SnapshotAt(s', key) == r && GetItemSpec(s', key) == (s', r))
      && (forall k :: k != key ==> SnapshotAt(s', k) == SnapshotAt(s, k))
  {
  }

  /** Reading twice answers the same and the second read changes nothing:
      every branch that caches makes the next read a snapshot hit. */
  lemma GetItemTwice<T>(s: StorageState<T>, key: string)
    ensures var (s1, r1) := GetItemSpec(s, key);
      GetItemSpec(s1, key) == (s1, r1)
  {
  }

  /** After `setItem(k, v)` both layers hold `v` at `k`, every other key is
      untouched, and `getItem(k)` returns `v`. */
  lemma GetAfterSet<T>(s: StorageState<T>, k: string, v: T)
    requires Working(s)
    ensures var s' := SetItemSpec(s, k, v);
      && LocalAt(s', k) == Some(Parsed(v))
      && (s.snapshot.Some? ==> SnapshotAt(s', k) == Some(v))
      && (forall k' :: k' != k ==> LocalAt(s', k') == LocalAt(s, k') && SnapshotAt(s', k') == SnapshotAt(s, k'))
      && GetItemSpec(s', k).1 == Some(v)
  {
  }

  /** After `removeItem(k)`, `k` is absent from both layers and every other key
      is untouched; `getItem(k)` is then null unless the legacy
      `tableGroups:none` fallback answers for it. */
  lemma GetAfterRemove<T>(s: StorageState<T>, k: string)
    requires s.localAvailable
    ensures var s' := RemoveItemSpec(s, k);
      && LocalAt(s', k).None? && SnapshotAt(s', k).None?
      && (forall k' :: k' != k ==> LocalAt(s', k') == LocalAt(s, k') && SnapshotAt(s', k') == SnapshotAt(s, k'))
      && (GetItemSpec(s', k).1 == if LegacyApplies(s', k) then Some(s.snapshot.value[LegacyGroupsKey]) else None)
  {
  }

  /** Failures are swallowed: a throwing `setItem` changes nothing; when
      every localStorage call throws, deletes change nothing too and, without
      a snapshot, every read is null. */
  lemma FailuresAreSilent<T>(s: StorageState<T>, k: string, v: T)
    ensures !s.localAvailable || !s.localWritable ==> SetItemSpec(s, k, v) == s
    ensures !s.localAvailable ==> RemoveItemSpec(s, k) == s
    ensures !s.localAvailable && s.snapshot.None? ==> GetItemSpec(s, k) == (s, None)
  {
  }

  /** A store over quota: `setItem` throws before the snapshot is updated, so
      a later read of that key, missing from the snapshot, still answers the
      older localStorage text. */
  lemma QuotaReadsOlderText<T>(s: StorageState<T>, k: string, v: T, older: T)
    requires s.localAvailable && !s.localWritable
    requires SnapshotAt(s, k).None? && !LegacyApplies(s, k)
    requires LocalAt(s, k) == Some(Parsed(older))
    ensures GetItemSpec(SetItemSpec(s, k, v), k).1 == Some(older)
  {
  }

  /** `k` durably holds `v`: localStorage answers `v` and so does the snapshot
      when there is one. */
  ghost predicate Holds<T>(s: StorageState<T>, k: string, v: T) {
    && Working(s)
    && LocalAt(s, k) == Some(Parsed(v))
    && (s.snapshot.Some? ==> SnapshotAt(s, k) == Some(v))
  }

  /** A held value is what `getItem` returns. */
  lemma ReadHeld<T>(s: StorageState<T>, k: string, v: T)
    requires Holds(s, k, v)
    ensures GetItemSpec(s, k) == (s, Some(v))
  {
  }

  /** `getItem` never changes localStorage or the availability of either layer,
      and in the snapshot it can only fill the key it reads. */
  lemma GetItemFrame<T>(s: StorageState<T>, key: string)
    ensures var s' := GetItemSpec(s, key).0;
      && s'.local == s.local && s'.localAvailable == s.localAvailable && s'.localWritable == s.localWritable
      && s'.snapshot.Some? == s.snapshot.Some?
      && (forall k :: k != key ==> SnapshotAt(s', k) == SnapshotAt(s, k))
      && (SnapshotAt(s, key).Some? ==> SnapshotAt(s', key) == SnapshotAt(s, key))
  {
  }

  /** A held value survives every read and every write or delete of another key. */
  lemma HoldsAfterGet<T>(s: StorageState<T>, k: string, v: T, key: string)
    requires Holds(s, k, v)
    ensures Holds(GetItemSpec(s, key).0, k, v)
  {
    GetItemFrame(s, key);
  }

  lemma HoldsAfterSet<T>(s: StorageState<T>, k: string, v: T, key: string, w: T)
    requires Holds(s, k, v) && key != k
    ensures Holds(SetItemSpec(s, key, w), k, v)
  {
  }

  lemma HoldsAfterRemove<T>(s: StorageState<T>, k: string, v: T, key: string)
    requires Holds(s, k, v) && key != k
    ensures Holds(RemoveItemSpec(s, key), k, v)
  {
  }

  /** A write on working storage is held. */
  lemma SetHolds<T>(s: StorageState<T>, k: string, v: T)
    requires Working(s)
    ensures Holds(SetItemSpec(s, k, v), k, v)
  {
  }

  /** The storage object: both layers as fields the operations update in place. */
  class AppLocalStorage<T> {
    var snapshot: Option<map<string, T>>
    var local: map<string, Raw<T>>
    var localAvailable: bool
    var localWritable: bool

    function State(): StorageState<T>
      reads this
    {
      StorageState(snapshot, local, localAvailable, localWritable)
    }

    /** A storage object over the window's current layers. */
    constructor (window: StorageState<T>)
      ensures State() == window
    {
      snapshot := window.snapshot;
      local := window.local;
      localAvailable := window.localAvailable;
      localWritable := window.localWritable;
    }

    method GetItem(key: string) returns (r: Option<T>)
      modifies this
      ensures (State(), r) == GetItemSpec(old(State()), key)
    {
      if snapshot.Some? && key in snapshot.value {
        return Some(snapshot.value[key]);
      }
      if StartsWith(key, GroupsPrefix) && snapshot.Some? && LegacyGroupsKey in snapshot.value {
        var legacy := snapshot.value[LegacyGroupsKey];
        snapshot := Some(snapshot.value[key := legacy]);
        return Some(legacy);
      }
      if !localAvailable || key !in local {
        return None;
      }
      match local[key]
      case Malformed =>
        return None;
      case Parsed(v) =>
        if snapshot.Some? {
          snapshot := Some(snapshot.value[key := v]);
        }
        return Some(v);
    }

    method SetItem(key: string, v: T)
      modifies this
      ensures State() == SetItemSpec(old(State()), key, v)
    {
      if !localAvailable || !localWritable {
        return;
      }
      local := local[key := Parsed(v)];
      if snapshot.Some? {
        snapshot := Some(snapshot.value[key := v]);
      }
    }

    method RemoveItem(key: string)
      modifies this
      ensures State() == RemoveItemSpec(old(State()), key)
    {
      if !localAvailable {
        return;
      }
      local := local - {key};
      if snapshot.Some? {
        snapshot := Some(snapshot.value - {key});
      }
    }
  }
}
