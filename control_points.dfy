/** `ConnectionControlPointsStore`: the user's bend points of each connection,
    an ordered map from the key `source-target-owner` to a list of points. The
    whole map is persisted under one fixed name, not per document. */
module ControlPoints {
  import opened Common
  import opened JsMap
  import opened LocalStorage
  import opened Persistable

  /** A control point: a position and an id unique among the user's points. */
  datatype ControlPoint = ControlPoint(x: real, y: real, id: string)

  /** What the store persists, `Array.from(map)`, or a value that is not an array. */
  datatype PointsValue = PointEntries(entries: Entries<seq<ControlPoint>>) | NotAnArray

  const StoreName: string := "connectionControlPoints"
  /** The one name the map is persisted under, whatever document is open. */
  const FixedStoreKey: string := "connectionControlPoints"

  datatype PointsState = PointsState(storage: StorageState<PointsValue>, points: Entries<seq<ControlPoint>>)

  /** `getKey`. */
  function ConnectionKey(source: string, target: string, owner: string): string {
    source + "-" + target + "-" + owner
  }

  /** With table names free of `-`, the key tells the connection apart: two
      keys are equal only for the same source, target and owner. */
  lemma ConnectionKeyInjective(s: string, t: string, o: string, s': string, t': string, o': string)
    requires '-' !in s && '-' !in t && '-' !in s' && '-' !in t'
    requires ConnectionKey(s, t, o) == ConnectionKey(s', t', o')
    ensures s == s' && t == t' && o == o'
  {
    assert s + "-" + (t + "-" + o) == ConnectionKey(s, t, o);
    assert s' + "-" + (t' + "-" + o') == ConnectionKey(s', t', o');
    DashSplit(s, t + "-" + o, s', t' + "-" + o');
    DashSplit(t, o, t', o');
  }

  /** Splitting at the first `-`: a dash-free prefix followed by `-` is determined. */
  lemma DashSplit(a: string, b: string, a': string, b': string)
    requires '-' !in a && '-' !in a'
    requires a + "-" + b == a' + "-" + b'
    ensures a == a' && b == b'
  {
    var k := a + "-" + b;
    assert forall i :: 0 <= i < |a| ==> k[i] != '-';
    assert forall i :: 0 <= i < |a'| ==> k[i] != '-';
    assert k[|a|] == '-' && k[|a'|] == '-';
    assert a == k[..|a|] && a' == k[..|a'|];
    assert b == k[|a| + 1..] && b' == k[|a'| + 1..];
  }

  /** `findIndex(p => p.id === id)`: the first index carrying the id. */
  function FindIndex(points: seq<ControlPoint>, id: string): (r: Option<nat>)
    ensures r.Some? ==>
      && r.value < |points| && points[r.value].id == id
      && forall j :: 0 <= j < r.value ==> points[j].id != id
    ensures r.None? ==> forall j :: 0 <= j < |points| ==> points[j].id != id
  {
    if points == [] then None
    else if points[0].id == id then Some(0)
    else
      var r := FindIndex(points[1..], id);
      if r.Some? then Some(r.value + 1) else None
  }

  /** `points.filter(p => p.id !== id)`. */
  function DropId(points: seq<ControlPoint>, id: string): (r: seq<ControlPoint>)
    ensures forall p :: p in r <==> p in points && p.id != id
    ensures |r| <= |points|
  {
    if points == [] then []
    else if points[0].id == id then DropId(points[1..], id)
    else [points[0]] + DropId(points[1..], id)
  }

  /** `getControlPoints`: the key's list, or `[]`. */
  function PointsAt(points: Entries<seq<ControlPoint>>, key: string): seq<ControlPoint> {
    Get(points, key).GetOr([])
  }

  function SaveSpec(st: PointsState): PointsState {
    st.(storage := SetItemSpec(st.storage, PersistenceKey(StoreName, FixedStoreKey), PointEntries(st.points)))
  }

  function AddSpec(st: PointsState, key: string, p: XY, id: string): PointsState {
    SaveSpec(st.(points := Set(st.points, key, PointsAt(st.points, key) + [ControlPoint(p.x, p.y, id)])))
  }

  function MoveSpec(st: PointsState, key: string, id: string, p: XY): PointsState {
    var list := PointsAt(st.points, key);
    var i := FindIndex(list, id);
    if i.None? then st
    else SaveSpec(st.(points := Set(st.points, key, list[i.value := list[i.value].(x := p.x, y := p.y)])))
  }

  function RemoveSpec(st: PointsState, key: string, id: string): PointsState {
    var filtered := DropId(PointsAt(st.points, key), id);
    if |filtered| == 0 then SaveSpec(st.(points := Delete(st.points, key)))
    else SaveSpec(st.(points := Set(st.points, key, filtered)))
  }

  function ClearSpec(st: PointsState, key: string): PointsState {
    SaveSpec(st.(points := Delete(st.points, key)))
  }

  /** `loadStore`: replace the map only with a retrieved array. */
  function LoadSpec(st: PointsState): PointsState {
    var (s1, v) := GetItemSpec(st.storage, PersistenceKey(StoreName, FixedStoreKey));
    if v.Some? && v.value.PointEntries? then st.(storage := s1, points := FromEntries(v.value.entries))
    else st.(storage := s1)
  }

  /** `addControlPoint` appends one point at the end of the key's list, leaves
      every other list alone and persists the whole map under the fixed name. */
  lemma AddAppends(st: PointsState, key: string, p: XY, id: string, other: string)
    requires Working(st.storage)
    ensures var st' := AddSpec(st, key, p, id);
      && PointsAt(st'.points, key) == PointsAt(st.points, key) + [ControlPoint(p.x, p.y, id)]
      && (other != key ==> PointsAt(st'.points, other) == PointsAt(st.points, other))
      && Holds(st'.storage, PersistenceKey(StoreName, FixedStoreKey), PointEntries(st'.points))
  {
    var list := PointsAt(st.points, key) + [ControlPoint(p.x, p.y, id)];
    GetSet(st.points, key, list, key);
    GetSet(st.points, key, list, other);
    SetHolds(st.storage, PersistenceKey(StoreName, FixedStoreKey), PointEntries(Set(st.points, key, list)));
  }

  /** `moveControlPoint` changes the position of the first point with the id,
      keeping its id and every other point; for an absent id it does nothing,
      storage included. */
  lemma MoveEffect(st: PointsState, key: string, id: string, p: XY)
    ensures var before := PointsAt(st.points, key);
      var after := PointsAt(MoveSpec(st, key, id, p).points, key);
      && (FindIndex(before, id).None? ==> MoveSpec(st, key, id, p) == st)
      && (FindIndex(before, id).Some? ==>
            var i := FindIndex(before, id).value;
            && |after| == |before|
            && after[i] == ControlPoint(p.x, p.y, id)
            && forall j :: 0 <= j < |before| && j != i ==> after[j] == before[j])
  {
    var list := PointsAt(st.points, key);
    var i := FindIndex(list, id);
    if i.Some? {
      GetSet(st.points, key, list[i.value := list[i.value].(x := p.x, y := p.y)], key);
    }
  }

  /** `removeControlPoint` leaves no point with the id and keeps the rest in
      order; a list left empty loses its key altogether. */
  lemma RemoveEffect(st: PointsState, key: string, id: string, other: string)
    requires Working(st.storage)
    ensures var st' := RemoveSpec(st, key, id);
      && PointsAt(st'.points, key) == DropId(PointsAt(st.points, key), id)
      && (forall q :: q in PointsAt(st'.points, key) ==> q.id != id)
      && (PointsAt(st'.points, key) == [] ==> !Has(st'.points, key))
      && (other != key ==> PointsAt(st'.points, other) == PointsAt(st.points, other))
      && Holds(st'.storage, PersistenceKey(StoreName, FixedStoreKey), PointEntries(st'.points))
  {
    var filtered := DropId(PointsAt(st.points, key), id);
    var k := PersistenceKey(StoreName, FixedStoreKey);
    if |filtered| == 0 {
      GetDelete(st.points, key, key);
      GetDelete(st.points, key, other);
      SetHolds(st.storage, k, PointEntries(Delete(st.points, key)));
    } else {
      GetSet(st.points, key, filtered, key);
      GetSet(st.points, key, filtered, other);
      SetHolds(st.storage, k, PointEntries(Set(st.points, key, filtered)));
    }
  }

  /** `clearControlPoints` deletes one key and no other. */
  lemma ClearEffect(st: PointsState, key: string, other: string)
    requires Working(st.storage)
    ensures var st' := ClearSpec(st, key);
      && !Has(st'.points, key) && PointsAt(st'.points, key) == []
      && (other != key ==> Get(st'.points, other) == Get(st.points, other))
      && Holds(st'.storage, PersistenceKey(StoreName, FixedStoreKey), PointEntries(st'.points))
  {
    GetDelete(st.points, key, key);
    GetDelete(st.points, key, other);
    SetHolds(st.storage, PersistenceKey(StoreName, FixedStoreKey), PointEntries(Delete(st.points, key)));
  }

  /** What one mutation persists is read back by `loadStore`: saving then
      loading restores the map exactly. */
  lemma LoadAfterSave(st: PointsState)
    requires Working(st.storage) && NoDupKeys(st.points)
    ensures LoadSpec(SaveSpec(st)).points == st.points
  {
    var k := PersistenceKey(StoreName, FixedStoreKey);
    SetHolds(st.storage, k, PointEntries(st.points));
    ReadHeld(SaveSpec(st).storage, k, PointEntries(st.points));
    FromEntriesOfUnique(st.points);
  }

  /** `loadStore` keeps the map when nothing usable is stored. */
  lemma LoadWithoutArray(st: PointsState)
    requires GetItemSpec(st.storage, PersistenceKey(StoreName, FixedStoreKey)).1.None?
    ensures LoadSpec(st).points == st.points
  {
  }

  class ConnectionControlPointsStore {
    const base: PersistableStore<PointsValue>
    var controlPoints: Entries<seq<ControlPoint>>

    ghost predicate Valid()
      reads this
    {
      base.storeName == StoreName
    }

    function State(): PointsState
      reads this, base.storage
    {
      PointsState(base.storage.State(), controlPoints)
    }

    constructor (window: StorageState<PointsValue>)
      ensures Valid() && fresh(base.storage)
      ensures State() == PointsState(window, [])
    {
      base := new PersistableStore(StoreName, None, window);
      controlPoints := [];
    }

    method SaveCurrentStore()
      requires Valid()
      modifies base.storage
      ensures State() == SaveSpec(old(State()))
    {
      base.Persist(FixedStoreKey, PointEntries(controlPoints));
    }

    /** `addControlPoint`, the fresh id supplied by the caller. */
    method AddControlPoint(source: string, target: string, owner: string, p: XY, id: string)
      requires Valid()
      modifies this, base.storage
      ensures State() == AddSpec(old(State()), ConnectionKey(source, target, owner), p, id)
    {
      var key := ConnectionKey(source, target, owner);
      var current := Get(controlPoints, key).GetOr([]);
      current := current + [ControlPoint(p.x, p.y, id)];
      controlPoints := Set(controlPoints, key, current);
      SaveCurrentStore();
    }

    method MoveControlPoint(source: string, target: string, owner: string, id: string, p: XY)
      requires Valid()
      modifies this, base.storage
      ensures State() == MoveSpec(old(State()), ConnectionKey(source, target, owner), id, p)
    {
      var key := ConnectionKey(source, target, owner);
      var points := Get(controlPoints, key).GetOr([]);
      var index := FindIndex(points, id);
      if index.Some? {
        points := points[index.value := points[index.value].(x := p.x, y := p.y)];
        controlPoints := Set(controlPoints, key, points);
        SaveCurrentStore();
      }
    }

    method RemoveControlPoint(source: string, target: string, owner: string, id: string)
      requires Valid()
      modifies this, base.storage
      ensures State() == RemoveSpec(old(State()), ConnectionKey(source, target, owner), id)
    {
      var key := ConnectionKey(source, target, owner);
      var filtered := DropId(Get(controlPoints, key).GetOr([]), id);
      if |filtered| == 0 {
        controlPoints := Delete(controlPoints, key);
      } else {
        controlPoints := Set(controlPoints, key, filtered);
      }
      SaveCurrentStore();
    }

    method GetControlPoints(source: string, target: string, owner: string) returns (points: seq<ControlPoint>)
      ensures points == PointsAt(controlPoints, ConnectionKey(source, target, owner))
    {
      var r := Get(controlPoints, ConnectionKey(source, target, owner));
      points := if r.Some? then r.value else [];
    }

    method ClearControlPoints(source: string, target: string, owner: string)
      requires Valid()
      modifies this, base.storage
      ensures State() == ClearSpec(old(State()), ConnectionKey(source, target, owner))
    {
      controlPoints := Delete(controlPoints, ConnectionKey(source, target, owner));
      SaveCurrentStore();
    }

    method LoadStore()
      requires Valid()
      modifies this, base.storage
      ensures State() == LoadSpec(old(State()))
    {
      var recovered := base.Retrieve(FixedStoreKey);
      if recovered.Some? && recovered.value.PointEntries? {
        controlPoints := FromEntries(recovered.value.entries);
      }
    }
  }
}
