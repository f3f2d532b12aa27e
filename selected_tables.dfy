/** `SelectedTablesStore`: the set of selected table names. Every mutator
    emits `selectedTables:changed` with a copy of the new set. */
module SelectedTables {
  /** `toggleSelection` on a value. */
  function Toggle(s: set<string>, name: string): (r: set<string>)
    ensures name in r <==> name !in s
    ensures forall n :: n != name ==> (n in r <==> n in s)
  {
    if name in s then s - {name} else s + {name}
  }

  /** The names of a list, as a set. */
  function Names(names: seq<string>): (r: set<string>)
    ensures forall n :: n in r <==> n in names
  {
    set n | n in names
  }

  /** Toggling the same name twice restores the selection. */
  lemma ToggleTwice(s: set<string>, name: string)
    ensures Toggle(Toggle(s, name), name) == s
  {
    assert forall n :: n in Toggle(Toggle(s, name), name) <==> n in s;
  }

  class SelectedTablesStore {
    var selected: set<string>
    /** The snapshots emitted with `selectedTables:changed`, oldest first. */
    var emitted: seq<set<string>>

    constructor ()
      ensures selected == {} && emitted == []
    {
      selected := {};
      emitted := [];
    }

    method ToggleSelection(name: string)
      modifies this
      ensures selected == Toggle(old(selected), name)
      ensures emitted == old(emitted) + [selected]
    {
      if name in selected {
        selected := selected - {name};
      } else {
        selected := selected + {name};
      }
      emitted := emitted + [selected];
    }

    method ClearSelection()
      modifies this
      ensures selected == {}
      ensures emitted == old(emitted) + [{}]
    {
      selected := {};
      emitted := emitted + [selected];
    }

    /** `selectMultiple`: add each name in turn, then emit once. */
    method SelectMultiple(names: seq<string>)
      modifies this
      ensures selected == old(selected) + Names(names)
      ensures emitted == old(emitted) + [selected]
    {
      var i := 0;
      while i < |names|
        invariant 0 <= i <= |names|
        invariant selected == old(selected) + Names(names[..i])
        invariant emitted == old(emitted)
      {
        assert Names(names[..i + 1]) == Names(names[..i]) + {names[i]} by {
          assert names[..i + 1] == names[..i] + [names[i]];
        }
        selected := selected + {names[i]};
        i := i + 1;
      }
      assert names[..|names|] == names;
      emitted := emitted + [selected];
    }

    /** `getSelected` returns a copy: a set value, which no caller can change
        inside the store. */
    method GetSelected() returns (r: set<string>)
      ensures r == selected
    {
      r := selected;
    }

    method IsSelected(name: string) returns (b: bool)
      ensures b <==> name in selected
    {
      b := name in selected;
    }
  }
}
