/** The greedy column assignment of the enum packing: enums, tallest first,
    each go into the column whose accumulated height is smallest (the lowest
    index among equals), and that column grows by the enum's height plus the
    vertical gap. */
module EnumColumns {
  import opened EnumSort

  /** The accumulated height of a stack: every entry's height plus the gap. */
  function StackHeight(s: seq<Sized>, gap: real): real
  {
    if s == [] then 0.0 else StackHeight(s[..|s| - 1], gap) + s[|s| - 1].height + gap
  }

  /** The scan `for (i = 1; i < columns; i++) if (h[i] < h[minIdx]) minIdx = i`:
      the first index holding the least height. */
  function MinIndex(hs: seq<real>): (r: nat)
    requires |hs| >= 1
    ensures r < |hs|
    ensures forall j :: 0 <= j < |hs| ==> hs[r] <= hs[j]
    ensures forall j :: 0 <= j < r ==> hs[j] > hs[r]
  {
    if |hs| == 1 then 0
    else
      var m := MinIndex(hs[..|hs| - 1]);
      if hs[|hs| - 1] < hs[m] then |hs| - 1 else m
  }

  /** `columns` empty stacks. */
  function EmptyColumns(columns: nat): (r: seq<seq<Sized>>)
    ensures |r| == columns && forall c :: 0 <= c < columns ==> r[c] == []
  {
    seq(columns, _ => [])
  }

  /** `columns` zero heights. */
  function ZeroHeights(columns: nat): (r: seq<real>)
    ensures |r| == columns && forall c :: 0 <= c < columns ==> r[c] == 0.0
  {
    seq(columns, _ => 0.0)
  }

  /** One step of the distribution: `e` goes to the lowest column, which
      grows by its height plus the gap. */
  function Place(prev: (seq<seq<Sized>>, seq<real>), e: Sized, gap: real): (r: (seq<seq<Sized>>, seq<real>))
    requires |prev.0| == |prev.1| >= 1
    ensures |r.0| == |prev.0| && |r.1| == |prev.1|
  {
    var m := MinIndex(prev.1);
    (prev.0[m := prev.0[m] + [e]], prev.1[m := prev.1[m] + e.height + gap])
  }

  /** The columns and their heights after distributing `sorted`. */
  function Distribute(sorted: seq<Sized>, columns: nat, gap: real): (r: (seq<seq<Sized>>, seq<real>))
    requires columns >= 1
    ensures |r.0| == columns && |r.1| == columns
  {
    if sorted == [] then (EmptyColumns(columns), ZeroHeights(columns))
    else Place(Distribute(sorted[..|sorted| - 1], columns, gap), sorted[|sorted| - 1], gap)
  }

  /** All columns laid end to end. */
  function Flatten(cols: seq<seq<Sized>>): seq<Sized>
  {
    if cols == [] then [] else cols[0] + Flatten(cols[1..])
  }

  lemma {:induction false} FlattenAppendAt(cols: seq<seq<Sized>>, m: nat, e: Sized)
    requires m < |cols|
    ensures multiset(Flatten(cols[m := cols[m] + [e]])) == multiset(Flatten(cols)) + multiset{e}
  {
    if m == 0 {
      assert cols[m := cols[m] + [e]][1..] == cols[1..];
    } else {
      FlattenAppendAt(cols[1..], m - 1, e);
      assert cols[m := cols[m] + [e]][1..] == cols[1..][m - 1 := cols[m] + [e]];
    }
  }

  lemma {:induction false} FlattenEmpty(n: nat)
    ensures Flatten(EmptyColumns(n)) == []
  {
    if n > 0 {
      assert EmptyColumns(n)[1..] == EmptyColumns(n - 1);
      FlattenEmpty(n - 1);
    }
  }

  /** Every enum lands in exactly one column. */
  lemma {:induction false} DistributePermutes(sorted: seq<Sized>, columns: nat, gap: real)
    requires columns >= 1
    ensures multiset(Flatten(Distribute(sorted, columns, gap).0)) == multiset(sorted)
  {
    if sorted == [] {
      FlattenEmpty(columns);
    } else {
      var n := |sorted| - 1;
      DistributePermutes(sorted[..n], columns, gap);
      var prev := Distribute(sorted[..n], columns, gap);
      var e := sorted[n];
      FlattenAppendAt(prev.0, MinIndex(prev.1), e);
      assert sorted == sorted[..n] + [e];
    }
  }

  /** Each column's recorded height is the stack height of what it holds. */
  lemma {:induction false} DistributeHeights(sorted: seq<Sized>, columns: nat, gap: real)
    requires columns >= 1
    ensures forall c :: 0 <= c < columns ==>
      Distribute(sorted, columns, gap).1[c] == StackHeight(Distribute(sorted, columns, gap).0[c], gap)
  {
    if sorted != [] {
      var n := |sorted| - 1;
      DistributeHeights(sorted[..n], columns, gap);
      var r := Distribute(sorted[..n], columns, gap);
      var cols, hs := r.0, r.1;
      var m := MinIndex(hs);
      var e := sorted[n];
      assert StackHeight(cols[m] + [e], gap) == StackHeight(cols[m], gap) + e.height + gap by {
        assert (cols[m] + [e])[..|cols[m]|] == cols[m];
      }
      var r' := Distribute(sorted, columns, gap);
      var cols', hs' := r'.0, r'.1;
      assert cols' == cols[m := cols[m] + [e]] && hs' == hs[m := hs[m] + e.height + gap];
      forall c | 0 <= c < columns
        ensures hs'[c] == StackHeight(cols'[c], gap)
      {
        assert hs[c] == StackHeight(cols[c], gap);
        if c != m {
          assert hs'[c] == hs[c] && cols'[c] == cols[c];
        } else {
          assert hs'[c] == hs[c] + e.height + gap && cols'[c] == cols[c] + [e];
        }
      }
    }
  }

  /** The greedy step: the entry placed last went to a column whose height
      was the least at that moment, and to no column of lower index that
      tied with it. */
  lemma GreedyChoice(sorted: seq<Sized>, columns: nat, gap: real, c: nat)
    requires columns >= 1 && sorted != [] && c < columns
    ensures var (cols0, hs0) := Distribute(sorted[..|sorted| - 1], columns, gap);
      var (cols, _) := Distribute(sorted, columns, gap);
      (cols[c] != cols0[c] <==> c == MinIndex(hs0))
      && (c == MinIndex(hs0) ==> cols[c] == cols0[c] + [sorted[|sorted| - 1]]
                                 && forall j :: 0 <= j < columns ==> hs0[c] <= hs0[j])
  {
    var (cols0, hs0) := Distribute(sorted[..|sorted| - 1], columns, gap);
    var m := MinIndex(hs0);
    assert |cols0[m] + [sorted[|sorted| - 1]]| != |cols0[m]|;
  }

  /** Distributing one more entry places it as `Place` does. */
  lemma DistributeStep(sorted: seq<Sized>, k: nat, columns: nat, gap: real)
    requires columns >= 1 && k < |sorted|
    ensures Distribute(sorted[..k + 1], columns, gap) == Place(Distribute(sorted[..k], columns, gap), sorted[k], gap)
  {
    assert sorted[..k + 1][..k] == sorted[..k];
  }

  /** The scan for the lowest column over the `columnHeights` array. */
  method LowestColumn(columnHeights: array<real>) returns (minIdx: nat)
    requires columnHeights.Length >= 1
    ensures minIdx == MinIndex(columnHeights[..])
  {
    minIdx := 0;
    var i := 1;
    while i < columnHeights.Length
      invariant 1 <= i <= columnHeights.Length
      invariant minIdx == MinIndex(columnHeights[..i])
    {
      assert columnHeights[..i + 1][..i] == columnHeights[..i];
      if columnHeights[i] < columnHeights[minIdx] {
        minIdx := i;
      }
      i := i + 1;
    }
    assert columnHeights[..columnHeights.Length] == columnHeights[..];
  }

  /** One iteration of the distribution loop: the entry goes to the lowest
      column, whose entry in `columnHeights` grows in place. */
  method PlaceEntry(cols: seq<seq<Sized>>, columnHeights: array<real>, entry: Sized, gap: real)
    returns (cols': seq<seq<Sized>>)
    requires |cols| == columnHeights.Length >= 1
    modifies columnHeights
    ensures (cols', columnHeights[..]) == Place((cols, old(columnHeights[..])), entry, gap)
  {
    var minIdx := LowestColumn(columnHeights);
    ghost var hs := columnHeights[..];
    cols' := cols[minIdx := cols[minIdx] + [entry]];
    columnHeights[minIdx] := columnHeights[minIdx] + entry.height + gap;
    assert columnHeights[..] == hs[minIdx := hs[minIdx] + entry.height + gap];
  }

  /** The distribution loop over the enum entries, over the `columnHeights` array. */
  method DistributeEnums(sorted: seq<Sized>, columns: nat, gap: real) returns (cols: seq<seq<Sized>>)
    requires columns >= 1
    ensures cols == Distribute(sorted, columns, gap).0
  {
    var columnHeights := new real[columns](_ => 0.0);
    cols := EmptyColumns(columns);
    assert columnHeights[..] == ZeroHeights(columns);
    assert sorted[..0] == [];
    var k := 0;
    while k < |sorted|
      invariant 0 <= k <= |sorted|
      invariant columnHeights.Length == columns
      invariant (cols, columnHeights[..]) == Distribute(sorted[..k], columns, gap)
    {
      DistributeStep(sorted, k, columns, gap);
      cols := PlaceEntry(cols, columnHeights, sorted[k], gap);
      k := k + 1;
    }
    assert sorted[..|sorted|] == sorted;
  }
}
