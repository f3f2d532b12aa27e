/** The merge both position stores run in `resetPositions`: start from the
    in-memory map, overlay every recovered persisted entry, then give each
    listed name that is still missing its freshly computed position. */
module PositionMerge {
  import opened Common
  import opened JsMap

  /** `recovered.forEach((pos, key) => merged.set(key, pos))`. */
  function Overlay(m: Entries<XY>, r: Entries<XY>): Entries<XY>
  {
    if r == [] then m
    else
      var n := |r| - 1;
      Set(Overlay(m, r[..n]), r[n].0, r[n].1)
  }

  /** `names.forEach(n => if (!merged.has(n)) { pos = computed.get(n); if (pos) merged.set(n, pos) })`. */
  function FillMissing(m: Entries<XY>, names: seq<string>, computed: Entries<XY>): Entries<XY>
  {
    if names == [] then m
    else
      var n := |names| - 1;
      var acc := FillMissing(m, names[..n], computed);
      if !Has(acc, names[n]) && Get(computed, names[n]).Some? then
        Set(acc, names[n], Get(computed, names[n]).value)
      else acc
  }

  /** The map `resetPositions` installs: the in-memory map, overlaid with the
      recovered array (when the stored value is an array) hydrated through
      `new Map`, then filled from the computed layout. */
  function Merge(inMemory: Entries<XY>, recovered: Option<Entries<XY>>, names: seq<string>,
                 computed: Entries<XY>): Entries<XY>
  {
    var base := if recovered.Some? then Overlay(inMemory, FromEntries(recovered.value)) else inMemory;
    FillMissing(base, names, computed)
  }

  lemma {:induction false} GetOverlay(m: Entries<XY>, r: Entries<XY>, k: string)
    ensures Get(Overlay(m, r), k) == if LastValue(r, k).Some? then LastValue(r, k) else Get(m, k)
  {
    if r != [] {
      var n := |r| - 1;
      GetOverlay(m, r[..n], k);
      GetSet(Overlay(m, r[..n]), r[n].0, r[n].1, k);
    }
  }

  lemma {:induction false} GetFillMissing(m: Entries<XY>, names: seq<string>, computed: Entries<XY>, k: string)
    ensures Get(FillMissing(m, names, computed), k) ==
      if Get(m, k).Some? then Get(m, k)
      else if k in names then Get(computed, k)
      else None
  {
    if names != [] {
      var n := |names| - 1;
      var acc := FillMissing(m, names[..n], computed);
      GetFillMissing(m, names[..n], computed, k);
      if !Has(acc, names[n]) && Get(computed, names[n]).Some? {
        GetSet(acc, names[n], Get(computed, names[n]).value, k);
      }
      assert k in names <==> k in names[..n] || k == names[n] by {
        assert names == names[..n] + [names[n]];
      }
    }
  }

  /** The precedence of `resetPositions`: a persisted entry beats the
      in-memory one, which beats the computed one; computed positions only
      reach listed names that neither of the other two has; every other name
      keeps whatever the in-memory or persisted map gave it. */
  lemma MergePrecedence(inMemory: Entries<XY>, recovered: Option<Entries<XY>>, names: seq<string>,
                        computed: Entries<XY>, k: string)
    ensures Get(Merge(inMemory, recovered, names, computed), k) ==
      if recovered.Some? && LastValue(recovered.value, k).Some? then LastValue(recovered.value, k)
      else if Get(inMemory, k).Some? then Get(inMemory, k)
      else if k in names then Get(computed, k)
      else None
  {
    if recovered.Some? {
      var r := FromEntries(recovered.value);
      GetOverlay(inMemory, r, k);
      FromEntriesNoDup(recovered.value);
      LastValueUnique(r, k);
      GetFromEntries(recovered.value, k);
      GetFillMissing(Overlay(inMemory, r), names, computed, k);
    } else {
      GetFillMissing(inMemory, names, computed, k);
    }
  }

  lemma {:induction false} OverlayNoDup(m: Entries<XY>, r: Entries<XY>)
    requires NoDupKeys(m)
    ensures NoDupKeys(Overlay(m, r))
  {
    if r != [] {
      OverlayNoDup(m, r[..|r| - 1]);
      SetNoDup(Overlay(m, r[..|r| - 1]), r[|r| - 1].0, r[|r| - 1].1);
    }
  }

  lemma {:induction false} FillMissingNoDup(m: Entries<XY>, names: seq<string>, computed: Entries<XY>)
    requires NoDupKeys(m)
    ensures NoDupKeys(FillMissing(m, names, computed))
  {
    if names != [] {
      var n := |names| - 1;
      FillMissingNoDup(m, names[..n], computed);
      var acc := FillMissing(m, names[..n], computed);
      if !Has(acc, names[n]) && Get(computed, names[n]).Some? {
        SetNoDup(acc, names[n], Get(computed, names[n]).value);
      }
    }
  }

  /** The merged map is again a key-unique map. */
  lemma MergeNoDup(inMemory: Entries<XY>, recovered: Option<Entries<XY>>, names: seq<string>, computed: Entries<XY>)
    requires NoDupKeys(inMemory)
    ensures NoDupKeys(Merge(inMemory, recovered, names, computed))
  {
    if recovered.Some? {
      OverlayNoDup(inMemory, FromEntries(recovered.value));
      FillMissingNoDup(Overlay(inMemory, FromEntries(recovered.value)), names, computed);
    } else {
      FillMissingNoDup(inMemory, names, computed);
    }
  }

  /** The two `forEach` loops of `resetPositions`, run on a copy of the
      in-memory map. */
  method MergePositions(inMemory: Entries<XY>, recovered: Option<Entries<XY>>, names: seq<string>,
                        computed: Entries<XY>) returns (merged: Entries<XY>)
    ensures merged == Merge(inMemory, recovered, names, computed)
  {
    merged := inMemory;
    if recovered.Some? {
      var recoveredMap := FromEntries(recovered.value);
      var i := 0;
      while i < |recoveredMap|
        invariant 0 <= i <= |recoveredMap|
        invariant merged == Overlay(inMemory, recoveredMap[..i])
      {
        assert recoveredMap[..i + 1][..i] == recoveredMap[..i];
        merged := Set(merged, recoveredMap[i].0, recoveredMap[i].1);
        i := i + 1;
      }
      assert recoveredMap[..|recoveredMap|] == recoveredMap;
    }
    ghost var base := merged;
    var j := 0;
    while j < |names|
      invariant 0 <= j <= |names|
      invariant merged == FillMissing(base, names[..j], computed)
    {
      assert names[..j + 1][..j] == names[..j];
      var pos := Get(computed, names[j]);
      if !Has(merged, names[j]) && pos.Some? {
        merged := Set(merged, names[j], pos.value);
      }
      j := j + 1;
    }
    assert names[..|names|] == names;
  }
}
