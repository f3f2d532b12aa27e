/** What dropping a table does to the groups: the table joins the group whose
    rectangle holds its centre (the last such group in map order) and leaves
    every other group; dropped outside every group, it leaves them all. */
module TableDrag {
  import opened Common
  import opened JsMap
  import opened TableGroups

  /** `tableHeight`: the colour band, the header row, one row per visible
      field and the small padding. */
  function TableHeight(sz: Sizing, visibleFields: nat): (h: real)
    requires sz.Valid()
    ensures h >= sz.tableColorHeight + sz.columnHeight
    ensures h == sz.tableColorHeight + (visibleFields + 1) as real * sz.columnHeight + sz.paddingSm
  {
    sz.tableColorHeight + sz.columnHeight + visibleFields as real * sz.columnHeight + sz.paddingSm
  }

  /** The centre the containment test uses: top-left plus half the size. */
  function TableCenter(pos: XY, width: real, height: real): XY {
    XY(pos.x + width / 2.0, pos.y + height / 2.0)
  }

  /** The first `forEach`: the id of the last group whose closed rectangle
      holds the centre. */
  function FoundGroup(groups: Entries<Group>, c: XY): (r: Option<string>)
    ensures r.Some? <==> exists i :: 0 <= i < |groups| && InClosedRect(c.x, c.y, groups[i].1.Box())
    ensures r.Some? ==> exists i ::
      && 0 <= i < |groups| && groups[i].0 == r.value
      && InClosedRect(c.x, c.y, groups[i].1.Box())
      && forall j :: i < j < |groups| ==> !InClosedRect(c.x, c.y, groups[j].1.Box())
  {
    if groups == [] then None
    else
      var n := |groups| - 1;
      if InClosedRect(c.x, c.y, groups[n].1.Box()) then Some(groups[n].0)
      else
        var r := FoundGroup(groups[..n], c);
        assert forall i :: 0 <= i < n ==> groups[..n][i] == groups[i];
        r
  }

  /** The removal `forEach`: visiting the groups in order, drop the table
      from each group that lists it, except the group `keep`. */
  function RemoveFromGroups(st: GroupsState, visited: Entries<Group>, name: string, keep: Option<string>): GroupsState {
    if visited == [] then st
    else
      var cur := RemoveFromGroups(st, visited[..|visited| - 1], name, keep);
      var (gid, g) := visited[|visited| - 1];
      if name in g.tableNames && keep != Some(gid) then RemoveTableSpec(cur, gid, name) else cur
  }

  /** `handleOnDragEnd` with the table's centre `c`. */
  function DragEndSpec(st: GroupsState, name: string, c: XY): GroupsState {
    DropInto(st, name, FoundGroup(st.groups, c))
  }

  /** The removal loop, then the join of the group `found`, if any. */
  function DropInto(st: GroupsState, name: string, found: Option<string>): GroupsState {
    var st1 := RemoveFromGroups(st, st.groups, name, found);
    if found.Some? then
      var target := Get(st.groups, found.value);
      if target.Some? && name !in target.value.tableNames then AddTableSpec(st1, found.value, name) else st1
    else st1
  }

  // ---------------------------------------------------------------- lemmas

  lemma RemoveTableOther(st: GroupsState, gid: string, name: string, other: string)
    requires other != gid
    ensures Get(RemoveTableSpec(st, gid, name).groups, other) == Get(st.groups, other)
  {
    var r := Get(st.groups, gid);
    if r.Some? {
      GetSet(st.groups, gid, r.value.(tableNames := Without(r.value.tableNames, name)), other);
    }
  }

  lemma AddTableOther(st: GroupsState, gid: string, name: string, other: string)
    requires other != gid
    ensures Get(AddTableSpec(st, gid, name).groups, other) == Get(st.groups, other)
  {
    var r := Get(st.groups, gid);
    if r.Some? && name !in r.value.tableNames {
      GetSet(st.groups, gid, r.value.(tableNames := r.value.tableNames + [name]), other);
    }
  }

  lemma RemoveTableSame(st: GroupsState, gid: string, name: string)
    ensures Get(RemoveTableSpec(st, gid, name).groups, gid).Some? == Get(st.groups, gid).Some?
    ensures TablesInGroup(RemoveTableSpec(st, gid, name).groups, gid) == Without(TablesInGroup(st.groups, gid), name)
  {
    var r := Get(st.groups, gid);
    if r.Some? {
      GetSet(st.groups, gid, r.value.(tableNames := Without(r.value.tableNames, name)), gid);
    }
  }

  /** After visiting a prefix of the map: each visited group other than
      `keep` has lost the table, every other group is as it was. */
  lemma {:induction false} RemoveFromGroupsEffect(st: GroupsState, i: nat, name: string, keep: Option<string>, k: string)
    requires NoDupKeys(st.groups) && i <= |st.groups|
    ensures Get(RemoveFromGroups(st, st.groups[..i], name, keep).groups, k).Some? == Get(st.groups, k).Some?
    ensures TablesInGroup(RemoveFromGroups(st, st.groups[..i], name, keep).groups, k) ==
      if k in Keys(st.groups[..i]) && keep != Some(k) then Without(TablesInGroup(st.groups, k), name)
      else TablesInGroup(st.groups, k)
  {
    if i > 0 {
      var p := st.groups[..i - 1];
      var cur := RemoveFromGroups(st, p, name, keep);
      var gid, g := st.groups[i - 1].0, st.groups[i - 1].1;
      RemoveFromGroupsSnoc(st, i, name, keep);
      KeysPrefixFresh(st.groups, i, k);
      RemoveFromGroupsEffect(st, i - 1, name, keep, k);
      if k == gid {
        GetInEntries(st.groups, i - 1);
        VisitSame(st, cur, gid, g, name, keep);
      } else {
        VisitOther(cur, gid, g, name, keep, k);
      }
    }
  }

  lemma RemoveFromGroupsSnoc(st: GroupsState, i: nat, name: string, keep: Option<string>)
    requires 0 < i <= |st.groups|
    ensures var cur := RemoveFromGroups(st, st.groups[..i - 1], name, keep);
      var gid, g := st.groups[i - 1].0, st.groups[i - 1].1;
      RemoveFromGroups(st, st.groups[..i], name, keep)
        == if name in g.tableNames && keep != Some(gid) then RemoveTableSpec(cur, gid, name) else cur
  {
    assert st.groups[..i][..i - 1] == st.groups[..i - 1];
  }

  /** The keys of a map prefix grow by the next key, which is new. */
  lemma KeysPrefixFresh(m: Entries<Group>, i: nat, k: string)
    requires NoDupKeys(m) && 0 < i <= |m|
    ensures k in Keys(m[..i]) <==> k in Keys(m[..i - 1]) || k == m[i - 1].0
    ensures m[i - 1].0 !in Keys(m[..i - 1])
  {
    var p := m[..i - 1];
    assert Keys(m[..i]) == Keys(p) + [m[i - 1].0];
    forall j | 0 <= j < |p| ensures Keys(p)[j] != m[i - 1].0 {
      assert p[j] == m[j];
    }
  }

  /** One visit of the removal loop, to the group `gid` not visited before:
      it loses the table unless it is the group kept. */
  lemma VisitSame(st: GroupsState, cur: GroupsState, gid: string, g: Group, name: string, keep: Option<string>)
    requires Get(st.groups, gid) == Some(g)
    requires Get(cur.groups, gid).Some? == Get(st.groups, gid).Some?
    requires TablesInGroup(cur.groups, gid) == TablesInGroup(st.groups, gid)
    ensures var next := if name in g.tableNames && keep != Some(gid) then RemoveTableSpec(cur, gid, name) else cur;
      && Get(next.groups, gid).Some?
      && TablesInGroup(next.groups, gid) ==
           if keep != Some(gid) then Without(TablesInGroup(st.groups, gid), name) else TablesInGroup(st.groups, gid)
  {
    if name in g.tableNames && keep != Some(gid) {
      RemoveTableSame(cur, gid, name);
    } else if keep != Some(gid) {
      WithoutAbsent(g.tableNames, name);
    }
  }

  /** The visit to `gid` leaves every other group as it was. */
  lemma VisitOther(cur: GroupsState, gid: string, g: Group, name: string, keep: Option<string>, k: string)
    requires k != gid
    ensures var next := if name in g.tableNames && keep != Some(gid) then RemoveTableSpec(cur, gid, name) else cur;
      Get(next.groups, k) == Get(cur.groups, k)
  {
    if name in g.tableNames && keep != Some(gid) {
      RemoveTableOther(cur, gid, name, k);
    }
  }

  lemma {:induction false} GetInEntries(m: Entries<Group>, i: nat)
    requires NoDupKeys(m) && i < |m|
    ensures Get(m, m[i].0) == Some(m[i].1)
  {
    GetFromEntries(m, m[i].0);
    FromEntriesOfUnique(m);
    LastValueAt(m, i);
  }

  lemma {:induction false} LastValueAt(m: Entries<Group>, i: nat)
    requires NoDupKeys(m) && i < |m|
    ensures LastValue(m, m[i].0) == Some(m[i].1)
  {
    if i < |m| - 1 {
      var p := m[..|m| - 1];
      assert forall a, b :: 0 <= a < b < |p| ==> p[a].0 != p[b].0 by {
        forall a, b | 0 <= a < b < |p| ensures p[a].0 != p[b].0 {
          assert p[a] == m[a] && p[b] == m[b];
        }
      }
      LastValueAt(p, i);
    }
  }

  /** A group is visited by the removal loop exactly when it exists. */
  lemma KeysOfGroups(groups: Entries<Group>, k: string)
    ensures k in Keys(groups) <==> Get(groups, k).Some?
  {
    HasKeys(groups, k);
  }

  /** After a drop, the table belongs to the group found under its centre and
      to no other; found no group, it belongs to none. Every other table's
      membership, in every group, is unchanged, and so is the order of each
      group's list. */
  lemma DragEndMembership(st: GroupsState, name: string, c: XY, k: string)
    requires NoDupKeys(st.groups)
    ensures var st' := DragEndSpec(st, name, c);
      var found := FoundGroup(st.groups, c);
      && Get(st'.groups, k).Some? == Get(st.groups, k).Some?
      && (found == Some(k) ==>
            TablesInGroup(st'.groups, k) ==
              if name in TablesInGroup(st.groups, k) then TablesInGroup(st.groups, k) else TablesInGroup(st.groups, k) + [name])
      && (found != Some(k) ==> TablesInGroup(st'.groups, k) == Without(TablesInGroup(st.groups, k), name))
  {
    var found := FoundGroup(st.groups, c);
    assert st.groups[..|st.groups|] == st.groups;
    RemoveFromGroupsEffect(st, |st.groups|, name, found, k);
    KeysOfGroups(st.groups, k);
    if found.Some? {
      var st1 := RemoveFromGroups(st, st.groups, name, found);
      var fid := found.value;
      RemoveFromGroupsEffect(st, |st.groups|, name, found, fid);
      var i :| 0 <= i < |st.groups| && st.groups[i].0 == fid && InClosedRect(c.x, c.y, st.groups[i].1.Box());
      GetInEntries(st.groups, i);
      var target := Get(st.groups, fid);
      if name !in target.value.tableNames {
        if k == fid {
          AddTableEffect(st1, fid, name);
        } else {
          AddTableOther(st1, fid, name, k);
        }
      }
    } else {
      if Get(st.groups, k).None? {
        WithoutAbsent([], name);
      }
    }
  }

  /** Hence the table ends in at most one group, and in the found one. */
  lemma AtMostOneGroup(st: GroupsState, name: string, c: XY, k: string)
    requires NoDupKeys(st.groups)
    ensures name in TablesInGroup(DragEndSpec(st, name, c).groups, k) <==> FoundGroup(st.groups, c) == Some(k)
  {
    DragEndMembership(st, name, c, k);
  }

  // ---------------------------------------------------------------- method

  /** `handleOnDragEnd` over the group store. `getAllGroups` hands out the
      store's own map; the loops below walk the map as it was at the drop,
      which agrees with the live map because each call changes only the
      group being visited. */
  method HandleOnDragEnd(store: TableGroupsStore, name: string, tablePos: XY, tableWidth: real, tableHeight: real)
    requires store.Valid()
    modifies store, store.base.storage
    ensures store.Valid()
    ensures store.State() == DragEndSpec(old(store.State()), name, TableCenter(tablePos, tableWidth, tableHeight))
    ensures forall k :: name in TablesInGroup(store.groups, k) <==>
                        FoundGroup(old(store.groups), TableCenter(tablePos, tableWidth, tableHeight)) == Some(k)
  {
    ghost var st0 := store.State();
    ghost var centre := TableCenter(tablePos, tableWidth, tableHeight);
    var groups := store.groups;
    var c := XY(tablePos.x + tableWidth / 2.0, tablePos.y + tableHeight / 2.0);
    assert c == centre;
    var foundGroupId := FindGroup(groups, c);
    RemoveFromAll(store, groups, name, foundGroupId);
    if foundGroupId.Some? {
      var targetGroup := Get(groups, foundGroupId.value);
      if targetGroup.Some? && name !in targetGroup.value.tableNames {
        store.AddTableToGroup(foundGroupId.value, name);
      }
    }
    assert store.State() == DropInto(st0, name, foundGroupId);
    assert store.State() == DragEndSpec(st0, name, centre);
    forall k
      ensures name in TablesInGroup(store.groups, k) <==> FoundGroup(st0.groups, centre) == Some(k)
    {
      AtMostOneGroup(st0, name, centre, k);
    }
  }

  /** The containment scan: the last group whose closed rectangle holds the
      centre. */
  method FindGroup(groups: Entries<Group>, c: XY) returns (foundGroupId: Option<string>)
    ensures foundGroupId == FoundGroup(groups, c)
  {
    foundGroupId := None;
    var i := 0;
    while i < |groups|
      invariant 0 <= i <= |groups|
      invariant foundGroupId == FoundGroup(groups[..i], c)
    {
      assert groups[..i + 1][..i] == groups[..i];
      var g := groups[i].1;
      var isInside := c.x >= g.x && c.x <= g.x + g.width && c.y >= g.y && c.y <= g.y + g.height;
      if isInside {
        foundGroupId := Some(groups[i].0);
      }
      i := i + 1;
    }
    assert groups[..|groups|] == groups;
  }

  /** The removal loop over the map as it was at the drop. */
  method RemoveFromAll(store: TableGroupsStore, groups: Entries<Group>, name: string, keep: Option<string>)
    requires store.Valid()
    modifies store, store.base.storage
    ensures store.Valid()
    ensures store.State() == RemoveFromGroups(old(store.State()), groups, name, keep)
  {
    var i := 0;
    while i < |groups|
      invariant 0 <= i <= |groups|
      invariant store.Valid()
      invariant store.State() == RemoveFromGroups(old(store.State()), groups[..i], name, keep)
    {
      assert groups[..i + 1][..i] == groups[..i];
      var (groupId, group) := groups[i];
      if name in group.tableNames && keep != Some(groupId) {
        store.RemoveTableFromGroup(groupId, name);
      }
      i := i + 1;
    }
    assert groups[..|groups|] == groups;
  }
}
