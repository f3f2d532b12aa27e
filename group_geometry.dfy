/** The geometry of a table group on the canvas: resizing by a corner handle,
    dragging the group with its members, and recomputing which tables and
    enums it holds from where they are drawn. Rendered nodes are given as
    maps from name to box (or position); a name without a node has none. */
module GroupGeometry {
  import opened Common
  import opened JsMap
  import opened TableGroups
  import opened EventNames

  const MinGroupWidth: real := 200.0
  const MinGroupHeight: real := 150.0

  datatype Corner = SE | SW | NE | NW

  /** The corners whose handle moves the right edge, and the bottom edge. */
  predicate MovesRight(c: Corner) { c == SE || c == NE }
  predicate MovesBottom(c: Corner) { c == SE || c == SW }

  // ------------------------------------------------------------- resizing

  /** One mouse move while resizing from `corner`: the box at the start of
      the resize and the mouse's travel since then give the new box. */
  method ResizeMove(corner: Corner, start: Box, deltaX: real, deltaY: real) returns (r: Box)
    ensures r.width >= MinGroupWidth && r.height >= MinGroupHeight
    ensures r.width == Max(MinGroupWidth, if MovesRight(corner) then start.width + deltaX else start.width - deltaX)
    ensures r.height == Max(MinGroupHeight, if MovesBottom(corner) then start.height + deltaY else start.height - deltaY)
    // the edges away from the handle stay where they were
    ensures MovesRight(corner) ==> r.x == start.x
    ensures !MovesRight(corner) ==> r.x + r.width == start.x + start.width
    ensures MovesBottom(corner) ==> r.y == start.y
    ensures !MovesBottom(corner) ==> r.y + r.height == start.y + start.height
  {
    var newWidth := start.width;
    var newHeight := start.height;
    var newX := start.x;
    var newY := start.y;
    match corner {
      case SE =>
        newWidth := Max(200.0, start.width + deltaX);
        newHeight := Max(150.0, start.height + deltaY);
      case SW =>
        newWidth := Max(200.0, start.width - deltaX);
        newHeight := Max(150.0, start.height + deltaY);
        newX := start.x + (start.width - newWidth);
      case NE =>
        newWidth := Max(200.0, start.width + deltaX);
        newHeight := Max(150.0, start.height - deltaY);
        newY := start.y + (start.height - newHeight);
      case NW =>
        newWidth := Max(200.0, start.width - deltaX);
        newHeight := Max(150.0, start.height - deltaY);
        newX := start.x + (start.width - newWidth);
        newY := start.y + (start.height - newHeight);
    }
    r := Box(newX, newY, newWidth, newHeight);
  }

  // ------------------------------------------------------------- dragging

  datatype Kind = TableKind | EnumKind

  function DragEventName(kind: Kind, name: string): string {
    if kind == TableKind then TableDragEventName(name) else EnumDragEventName(name)
  }

  function Shift(p: XY, d: XY): XY { XY(p.x + d.x, p.y + d.y) }

  /** The nodes after moving, name by name, each member that has a node. */
  function Translated(nodes: Entries<XY>, names: seq<string>, d: XY): Entries<XY> {
    if names == [] then nodes
    else
      var m := Translated(nodes, names[..|names| - 1], d);
      var n := names[|names| - 1];
      if Has(m, n) then Set(m, n, Shift(Get(m, n).value, d)) else m
  }

  /** The drag events emitted along the way: one per moved member, carrying
      its new position. */
  function MoveEvents(nodes: Entries<XY>, names: seq<string>, d: XY, kind: Kind): seq<(string, XY)> {
    if names == [] then []
    else
      var m := Translated(nodes, names[..|names| - 1], d);
      var n := names[|names| - 1];
      MoveEvents(nodes, names[..|names| - 1], d, kind)
        + (if Has(m, n) then [(DragEventName(kind, n), Shift(Get(m, n).value, d))] else [])
  }

  predicate NoDup(names: seq<string>) {
    forall i, j :: 0 <= i < j < |names| ==> names[i] != names[j]
  }

  /** With distinct member names, every member that has a node moves by
      exactly the delta, and every other node stays. */
  lemma {:induction false} TranslatedMoves(nodes: Entries<XY>, names: seq<string>, d: XY, k: string)
    requires NoDup(names)
    ensures Get(Translated(nodes, names, d), k) ==
      if k in names && Has(nodes, k) then Some(Shift(Get(nodes, k).value, d)) else Get(nodes, k)
  {
    if names != [] {
      var p := names[..|names| - 1];
      var n := names[|names| - 1];
      TranslatedMoves(nodes, p, d, k);
      TranslatedMoves(nodes, p, d, n);
      var m := Translated(nodes, p, d);
      if Has(m, n) {
        GetSet(m, n, Shift(Get(m, n).value, d), k);
      }
      assert k in names <==> k in p || k == n;
    }
  }

  /** Conversely, every member that has a node emits its drag event, with the
      node's position moved by the delta. */
  lemma {:induction false} EveryMovedMemberSignals(nodes: Entries<XY>, names: seq<string>, d: XY, kind: Kind, k: string)
    requires NoDup(names) && k in names && Has(nodes, k)
    ensures (DragEventName(kind, k), Shift(Get(nodes, k).value, d)) in MoveEvents(nodes, names, d, kind)
  {
    var p := names[..|names| - 1];
    var n := names[|names| - 1];
    assert names == p + [n];
    if k == n {
      TranslatedMoves(nodes, p, d, n);
    } else {
      EveryMovedMemberSignals(nodes, p, d, kind, k);
    }
  }

  /** Each drag event names a member and carries the position its node ends
      up at. */
  lemma {:induction false} EventsMatchNodes(nodes: Entries<XY>, names: seq<string>, d: XY, kind: Kind)
    requires NoDup(names)
    ensures forall e :: e in MoveEvents(nodes, names, d, kind) ==>
      exists n :: n in names && e.0 == DragEventName(kind, n) && Get(Translated(nodes, names, d), n) == Some(e.1)
  {
    if names != [] {
      var p := names[..|names| - 1];
      var n := names[|names| - 1];
      EventsMatchNodes(nodes, p, d, kind);
      forall e | e in MoveEvents(nodes, names, d, kind)
        ensures exists n' :: n' in names && e.0 == DragEventName(kind, n') && Get(Translated(nodes, names, d), n') == Some(e.1)
      {
        if e in MoveEvents(nodes, p, d, kind) {
          var n' :| n' in p && e.0 == DragEventName(kind, n') && Get(Translated(nodes, p, d), n') == Some(e.1);
          TranslatedMoves(nodes, p, d, n');
          TranslatedMoves(nodes, names, d, n');
          assert n' != n;
          assert n' in names;
        } else {
          TranslatedMoves(nodes, p, d, n);
          TranslatedMoves(nodes, names, d, n);
          assert n in names;
        }
      }
    }
  }

  /** One `forEach` of the drag: move each member's node and emit its event. */
  method MoveMembers(nodes: Entries<XY>, names: seq<string>, d: XY, kind: Kind)
    returns (nodes': Entries<XY>, events: seq<(string, XY)>)
    ensures nodes' == Translated(nodes, names, d)
    ensures events == MoveEvents(nodes, names, d, kind)
  {
    nodes' := nodes;
    events := [];
    var i := 0;
    while i < |names|
      invariant 0 <= i <= |names|
      invariant nodes' == Translated(nodes, names[..i], d)
      invariant events == MoveEvents(nodes, names[..i], d, kind)
    {
      MoveStep(nodes, names, d, kind, i);
      var name := names[i];
      var node := Get(nodes', name);
      if node.Some? {
        var newPos := XY(node.value.x + d.x, node.value.y + d.y);
        assert Has(nodes', name) && newPos == Shift(Get(nodes', name).value, d);
        nodes' := Set(nodes', name, newPos);
        events := events + [(DragEventName(kind, name), newPos)];
      } else {
        assert !Has(nodes', name);
      }
      i := i + 1;
    }
    assert names[..|names|] == names;
  }

  /** Moving one more member: its node, if any, is shifted and one event
      is emitted for it. */
  lemma MoveStep(nodes: Entries<XY>, names: seq<string>, d: XY, kind: Kind, i: nat)
    requires i < |names|
    ensures var m := Translated(nodes, names[..i], d);
      var n := names[i];
      && Translated(nodes, names[..i + 1], d) == (if Has(m, n) then Set(m, n, Shift(Get(m, n).value, d)) else m)
      && MoveEvents(nodes, names[..i + 1], d, kind) == MoveEvents(nodes, names[..i], d, kind)
           + (if Has(m, n) then [(DragEventName(kind, n), Shift(Get(m, n).value, d))] else [])
  {
    assert names[..i + 1][..i] == names[..i];
  }

  /** `handleDragMove`: ignored while resizing; otherwise every member table
      and enum moves by the group's travel since the last move, and the
      group's position becomes the new reference. */
  method HandleDragMove(isResizing: bool, newPos: XY, lastPos: XY, g: Group,
                        tableNodes: Entries<XY>, enumNodes: Entries<XY>)
    returns (lastPos': XY, tableNodes': Entries<XY>, enumNodes': Entries<XY>, events: seq<(string, XY)>)
    ensures isResizing ==> lastPos' == lastPos && tableNodes' == tableNodes && enumNodes' == enumNodes && events == []
    ensures !isResizing ==>
      var d := XY(newPos.x - lastPos.x, newPos.y - lastPos.y);
      && lastPos' == newPos
      && tableNodes' == Translated(tableNodes, g.tableNames, d)
      && enumNodes' == Translated(enumNodes, g.enumNames.GetOr([]), d)
      && events == MoveEvents(tableNodes, g.tableNames, d, TableKind) + MoveEvents(enumNodes, g.enumNames.GetOr([]), d, EnumKind)
  {
    if isResizing {
      return lastPos, tableNodes, enumNodes, [];
    }
    var d := XY(newPos.x - lastPos.x, newPos.y - lastPos.y);
    var tableEvents, enumEvents;
    tableNodes', tableEvents := MoveMembers(tableNodes, g.tableNames, d, TableKind);
    enumNodes', enumEvents := MoveMembers(enumNodes, g.enumNames.GetOr([]), d, EnumKind);
    events := tableEvents + enumEvents;
    lastPos' := newPos;
  }

  // ------------------------------------------------ recomputing membership

  /** An entity is inside when the centre of its node lies in the group's
      closed rectangle. */
  predicate Inside(node: Box, area: Box) {
    InClosedRect(node.CenterX(), node.CenterY(), area)
  }

  /** The names, in key order, whose node is inside the area; names without
      a node are skipped. */
  function InsideNames(keys: seq<string>, nodes: Entries<Box>, area: Box): (r: seq<string>)
    ensures forall n :: n in r <==> n in keys && Get(nodes, n).Some? && Inside(Get(nodes, n).value, area)
  {
    if keys == [] then []
    else
      var k := keys[|keys| - 1];
      var node := Get(nodes, k);
      InsideNames(keys[..|keys| - 1], nodes, area) + (if node.Some? && Inside(node.value, area) then [k] else [])
  }

  /** `a.filter((n) => !b.includes(n))`. */
  function Missing(a: seq<string>, b: seq<string>): (r: seq<string>)
    ensures forall n :: n in r <==> n in a && n !in b
  {
    if a == [] then []
    else Missing(a[..|a| - 1], b) + (if a[|a| - 1] in b then [] else [a[|a| - 1]])
  }

  /** The store calls of one delta list, applied in order. */
  function AddTables(st: GroupsState, id: string, names: seq<string>): GroupsState {
    if names == [] then st else AddTableSpec(AddTables(st, id, names[..|names| - 1]), id, names[|names| - 1])
  }

  function RemoveTables(st: GroupsState, id: string, names: seq<string>): GroupsState {
    if names == [] then st else RemoveTableSpec(RemoveTables(st, id, names[..|names| - 1]), id, names[|names| - 1])
  }

  function AddEnums(st: GroupsState, id: string, names: seq<string>): GroupsState {
    if names == [] then st else AddEnumSpec(AddEnums(st, id, names[..|names| - 1]), id, names[|names| - 1])
  }

  function RemoveEnums(st: GroupsState, id: string, names: seq<string>): GroupsState {
    if names == [] then st else RemoveEnumSpec(RemoveEnums(st, id, names[..|names| - 1]), id, names[|names| - 1])
  }

  /** `recomputeMembership` given the names found inside: add the new
      members, remove the departed ones (tables, then enums, both diffed
      against the group as it was), and save once more if anything changed. */
  function RecomputeSpec(st: GroupsState, id: string, newTables: seq<string>, newEnums: seq<string>): GroupsState {
    var prevTables := TablesInGroup(st.groups, id);
    var prevEnums := EnumsInGroup(st.groups, id);
    var st1 := AddTables(st, id, Missing(newTables, prevTables));
    var st2 := RemoveTables(st1, id, Missing(prevTables, newTables));
    var st3 := AddEnums(st2, id, Missing(newEnums, prevEnums));
    var st4 := RemoveEnums(st3, id, Missing(prevEnums, newEnums));
    if Changed(st, id, newTables, newEnums) then SaveSpec(st4) else st4
  }

  /** Some delta list is not empty. */
  predicate Changed(st: GroupsState, id: string, newTables: seq<string>, newEnums: seq<string>) {
    var prevTables := TablesInGroup(st.groups, id);
    var prevEnums := EnumsInGroup(st.groups, id);
    Missing(newTables, prevTables) != [] || Missing(prevTables, newTables) != []
      || Missing(newEnums, prevEnums) != [] || Missing(prevEnums, newEnums) != []
  }

  // One store call at a time: what it does to the group's two lists.

  lemma AddTableStep(st: GroupsState, id: string, t: string)
    requires Get(st.groups, id).Some?
    ensures Get(AddTableSpec(st, id, t).groups, id).Some?
    ensures forall n :: n in TablesInGroup(AddTableSpec(st, id, t).groups, id) <==> n in TablesInGroup(st.groups, id) || n == t
    ensures EnumsInGroup(AddTableSpec(st, id, t).groups, id) == EnumsInGroup(st.groups, id)
  {
    var g := Get(st.groups, id).value;
    if t !in g.tableNames {
      GetSet(st.groups, id, g.(tableNames := g.tableNames + [t]), id);
    }
  }

  lemma RemoveTableStep(st: GroupsState, id: string, t: string)
    requires Get(st.groups, id).Some?
    ensures Get(RemoveTableSpec(st, id, t).groups, id).Some?
    ensures forall n :: n in TablesInGroup(RemoveTableSpec(st, id, t).groups, id) <==> n in TablesInGroup(st.groups, id) && n != t
    ensures EnumsInGroup(RemoveTableSpec(st, id, t).groups, id) == EnumsInGroup(st.groups, id)
  {
    var g := Get(st.groups, id).value;
    GetSet(st.groups, id, g.(tableNames := Without(g.tableNames, t)), id);
  }

  lemma AddEnumStep(st: GroupsState, id: string, e: string)
    requires Get(st.groups, id).Some?
    ensures Get(AddEnumSpec(st, id, e).groups, id).Some?
    ensures forall n :: n in EnumsInGroup(AddEnumSpec(st, id, e).groups, id) <==> n in EnumsInGroup(st.groups, id) || n == e
    ensures TablesInGroup(AddEnumSpec(st, id, e).groups, id) == TablesInGroup(st.groups, id)
  {
    var g := Get(st.groups, id).value;
    var names := g.enumNames.GetOr([]);
    if e !in names {
      GetSet(st.groups, id, g.(enumNames := Some(names + [e])), id);
    }
  }

  lemma RemoveEnumStep(st: GroupsState, id: string, e: string)
    requires Get(st.groups, id).Some?
    ensures Get(RemoveEnumSpec(st, id, e).groups, id).Some?
    ensures forall n :: n in EnumsInGroup(RemoveEnumSpec(st, id, e).groups, id) <==> n in EnumsInGroup(st.groups, id) && n != e
    ensures TablesInGroup(RemoveEnumSpec(st, id, e).groups, id) == TablesInGroup(st.groups, id)
  {
    var g := Get(st.groups, id).value;
    if g.enumNames.Some? {
      GetSet(st.groups, id, g.(enumNames := Some(Without(g.enumNames.value, e))), id);
    }
  }

  // A whole delta list.

  lemma {:induction false} AddTablesSets(st: GroupsState, id: string, names: seq<string>)
    requires Get(st.groups, id).Some?
    ensures Get(AddTables(st, id, names).groups, id).Some?
    ensures forall n :: n in TablesInGroup(AddTables(st, id, names).groups, id) <==> n in TablesInGroup(st.groups, id) || n in names
    ensures EnumsInGroup(AddTables(st, id, names).groups, id) == EnumsInGroup(st.groups, id)
  {
    if names != [] {
      var p := names[..|names| - 1];
      AddTablesSets(st, id, p);
      AddTableStep(AddTables(st, id, p), id, names[|names| - 1]);
      assert forall n :: n in names <==> n in p || n == names[|names| - 1];
    }
  }

  lemma {:induction false} RemoveTablesSets(st: GroupsState, id: string, names: seq<string>)
    requires Get(st.groups, id).Some?
    ensures Get(RemoveTables(st, id, names).groups, id).Some?
    ensures forall n :: n in TablesInGroup(RemoveTables(st, id, names).groups, id) <==> n in TablesInGroup(st.groups, id) && n !in names
    ensures EnumsInGroup(RemoveTables(st, id, names).groups, id) == EnumsInGroup(st.groups, id)
  {
    if names != [] {
      var p := names[..|names| - 1];
      RemoveTablesSets(st, id, p);
      RemoveTableStep(RemoveTables(st, id, p), id, names[|names| - 1]);
      assert forall n :: n in names <==> n in p || n == names[|names| - 1];
    }
  }

  lemma {:induction false} AddEnumsSets(st: GroupsState, id: string, names: seq<string>)
    requires Get(st.groups, id).Some?
    ensures Get(AddEnums(st, id, names).groups, id).Some?
    ensures forall n :: n in EnumsInGroup(AddEnums(st, id, names).groups, id) <==> n in EnumsInGroup(st.groups, id) || n in names
    ensures TablesInGroup(AddEnums(st, id, names).groups, id) == TablesInGroup(st.groups, id)
  {
    if names != [] {
      var p := names[..|names| - 1];
      AddEnumsSets(st, id, p);
      AddEnumStep(AddEnums(st, id, p), id, names[|names| - 1]);
      assert forall n :: n in names <==> n in p || n == names[|names| - 1];
    }
  }

  lemma {:induction false} RemoveEnumsSets(st: GroupsState, id: string, names: seq<string>)
    requires Get(st.groups, id).Some?
    ensures Get(RemoveEnums(st, id, names).groups, id).Some?
    ensures forall n :: n in EnumsInGroup(RemoveEnums(st, id, names).groups, id) <==> n in EnumsInGroup(st.groups, id) && n !in names
    ensures TablesInGroup(RemoveEnums(st, id, names).groups, id) == TablesInGroup(st.groups, id)
  {
    if names != [] {
      var p := names[..|names| - 1];
      RemoveEnumsSets(st, id, p);
      RemoveEnumStep(RemoveEnums(st, id, p), id, names[|names| - 1]);
      assert forall n :: n in names <==> n in p || n == names[|names| - 1];
    }
  }

  /** After recomputing, a group holds exactly the tables and the enums
      found inside it, as sets: the deltas bring both lists to the new
      membership. */
  lemma RecomputeMatchesInside(st: GroupsState, id: string, newTables: seq<string>, newEnums: seq<string>)
    requires Get(st.groups, id).Some?
    ensures var st' := RecomputeSpec(st, id, newTables, newEnums);
      && Get(st'.groups, id).Some?
      && (forall n :: n in TablesInGroup(st'.groups, id) <==> n in newTables)
      && (forall n :: n in EnumsInGroup(st'.groups, id) <==> n in newEnums)
  {
    var prevTables := TablesInGroup(st.groups, id);
    var prevEnums := EnumsInGroup(st.groups, id);
    var st1 := AddTables(st, id, Missing(newTables, prevTables));
    AddTablesSets(st, id, Missing(newTables, prevTables));
    var st2 := RemoveTables(st1, id, Missing(prevTables, newTables));
    RemoveTablesSets(st1, id, Missing(prevTables, newTables));
    var st3 := AddEnums(st2, id, Missing(newEnums, prevEnums));
    AddEnumsSets(st2, id, Missing(newEnums, prevEnums));
    RemoveEnumsSets(st3, id, Missing(prevEnums, newEnums));
  }

  /** When the group already holds exactly the names found inside, in any
      order, recomputing changes nothing and saves nothing. */
  lemma RecomputeUnchanged(st: GroupsState, id: string, newTables: seq<string>, newEnums: seq<string>)
    requires forall n :: n in TablesInGroup(st.groups, id) <==> n in newTables
    requires forall n :: n in EnumsInGroup(st.groups, id) <==> n in newEnums
    ensures !Changed(st, id, newTables, newEnums)
    ensures RecomputeSpec(st, id, newTables, newEnums) == st
  {
    var prevTables := TablesInGroup(st.groups, id);
    var prevEnums := EnumsInGroup(st.groups, id);
    EmptyMissing(newTables, prevTables);
    EmptyMissing(prevTables, newTables);
    EmptyMissing(newEnums, prevEnums);
    EmptyMissing(prevEnums, newEnums);
  }

  lemma EmptyMissing(a: seq<string>, b: seq<string>)
    requires forall n :: n in a ==> n in b
    ensures Missing(a, b) == []
  {
    if Missing(a, b) != [] {
      assert Missing(a, b)[0] in Missing(a, b);
    }
  }

  /** The `forEach` over the coordinate store's keys that collects the names
      inside the group. */
  method CollectInside(keys: seq<string>, nodes: Entries<Box>, area: Box) returns (names: seq<string>)
    ensures names == InsideNames(keys, nodes, area)
  {
    names := [];
    var i := 0;
    while i < |keys|
      invariant 0 <= i <= |keys|
      invariant names == InsideNames(keys[..i], nodes, area)
    {
      assert keys[..i + 1][..i] == keys[..i];
      var node := Get(nodes, keys[i]);
      if node.Some? {
        var centerX := node.value.x + node.value.width / 2.0;
        var centerY := node.value.y + node.value.height / 2.0;
        var inside := centerX >= area.x && centerX <= area.x + area.width && centerY >= area.y && centerY <= area.y + area.height;
        if inside {
          names := names + [keys[i]];
        }
      }
      i := i + 1;
    }
    assert keys[..|keys|] == keys;
  }

  /** Apply one table or enum delta list through the store. */
  method ApplyAddTables(store: TableGroupsStore, id: string, names: seq<string>)
    requires store.Valid()
    modifies store, store.base.storage
    ensures store.Valid()
    ensures store.State() == AddTables(old(store.State()), id, names)
  {
    var i := 0;
    while i < |names|
      invariant 0 <= i <= |names|
      invariant store.Valid()
      invariant store.State() == AddTables(old(store.State()), id, names[..i])
    {
      assert names[..i + 1][..i] == names[..i];
      store.AddTableToGroup(id, names[i]);
      i := i + 1;
    }
    assert names[..|names|] == names;
  }

  method ApplyRemoveTables(store: TableGroupsStore, id: string, names: seq<string>)
    requires store.Valid()
    modifies store, store.base.storage
    ensures store.Valid()
    ensures store.State() == RemoveTables(old(store.State()), id, names)
  {
    var i := 0;
    while i < |names|
      invariant 0 <= i <= |names|
      invariant store.Valid()
      invariant store.State() == RemoveTables(old(store.State()), id, names[..i])
    {
      assert names[..i + 1][..i] == names[..i];
      store.RemoveTableFromGroup(id, names[i]);
      i := i + 1;
    }
    assert names[..|names|] == names;
  }

  method ApplyAddEnums(store: TableGroupsStore, id: string, names: seq<string>)
    requires store.Valid()
    modifies store, store.base.storage
    ensures store.Valid()
    ensures store.State() == AddEnums(old(store.State()), id, names)
  {
    var i := 0;
    while i < |names|
      invariant 0 <= i <= |names|
      invariant store.Valid()
      invariant store.State() == AddEnums(old(store.State()), id, names[..i])
    {
      assert names[..i + 1][..i] == names[..i];
      store.AddEnumToGroup(id, names[i]);
      i := i + 1;
    }
    assert names[..|names|] == names;
  }

  method ApplyRemoveEnums(store: TableGroupsStore, id: string, names: seq<string>)
    requires store.Valid()
    modifies store, store.base.storage
    ensures store.Valid()
    ensures store.State() == RemoveEnums(old(store.State()), id, names)
  {
    var i := 0;
    while i < |names|
      invariant 0 <= i <= |names|
      invariant store.Valid()
      invariant store.State() == RemoveEnums(old(store.State()), id, names[..i])
    {
      assert names[..i + 1][..i] == names[..i];
      store.RemoveEnumFromGroup(id, names[i]);
      i := i + 1;
    }
    assert names[..|names|] == names;
  }

  /** `recomputeMembership` for the group `id` whose box is `area`: the
      coordinate stores' keys are the candidates, the rendered nodes decide
      who is inside. */
  method RecomputeMembership(store: TableGroupsStore, id: string, area: Box,
                             tableKeys: seq<string>, tableNodes: Entries<Box>,
                             enumKeys: seq<string>, enumNodes: Entries<Box>)
    requires store.Valid()
    modifies store, store.base.storage
    ensures store.Valid()
    ensures store.State() == RecomputeSpec(old(store.State()), id,
                                           InsideNames(tableKeys, tableNodes, area), InsideNames(enumKeys, enumNodes, area))
  {
    var newTableNames := CollectInside(tableKeys, tableNodes, area);
    var newEnumNames := CollectInside(enumKeys, enumNodes, area);
    var current := store.GetGroup(id);
    var prevTables := if current.Some? then current.value.tableNames else [];
    var prevEnums := if current.Some? then current.value.enumNames.GetOr([]) else [];
    var toAddTables := Missing(newTableNames, prevTables);
    var toRemoveTables := Missing(prevTables, newTableNames);
    ApplyAddTables(store, id, toAddTables);
    ApplyRemoveTables(store, id, toRemoveTables);
    var toAddEnums := Missing(newEnumNames, prevEnums);
    var toRemoveEnums := Missing(prevEnums, newEnumNames);
    ApplyAddEnums(store, id, toAddEnums);
    ApplyRemoveEnums(store, id, toRemoveEnums);
    if |toAddTables| > 0 || |toRemoveTables| > 0 || |toAddEnums| > 0 || |toRemoveEnums| > 0 {
      store.SaveCurrentStore();
    }
  }
}
