/** The order in which the enum packing takes enums:
    `[...enumEntries].sort((a, b) => b.height - a.height)`, a stable sort by
    descending height. */
module EnumSort {
  /** An enum with its box size. */
  datatype Sized = Sized(name: string, width: real, height: real)

  predicate SortedDesc(s: seq<Sized>) {
    forall i, j :: 0 <= i < j < |s| ==> s[i].height >= s[j].height
  }

  /** Insert `x` behind every entry at least as tall: before the first entry
      that is strictly shorter. */
  function InsertDesc(x: Sized, s: seq<Sized>): (r: seq<Sized>)
    ensures |r| == |s| + 1
    ensures multiset(r) == multiset(s) + multiset{x}
  {
    if s == [] then [x]
    else if s[0].height < x.height then [x] + s
    else
      assert s == [s[0]] + s[1..];
      [s[0]] + InsertDesc(x, s[1..])
  }

  /** The stable descending sort, as insertion of each entry in input order. */
  function SortDesc(s: seq<Sized>): (r: seq<Sized>)
  {
    if s == [] then [] else InsertDesc(s[|s| - 1], SortDesc(s[..|s| - 1]))
  }

  /** The entries of a given height, in order. */
  function OfHeight(s: seq<Sized>, h: real): (r: seq<Sized>)
  {
    if s == [] then []
    else if s[|s| - 1].height == h then OfHeight(s[..|s| - 1], h) + [s[|s| - 1]]
    else OfHeight(s[..|s| - 1], h)
  }

  lemma {:induction false} InsertDescSorted(x: Sized, s: seq<Sized>)
    requires SortedDesc(s)
    ensures SortedDesc(InsertDesc(x, s))
  {
    if s != [] && s[0].height >= x.height {
      InsertDescSorted(x, s[1..]);
      var t := InsertDesc(x, s[1..]);
      assert forall k :: 0 <= k < |t| ==> t[k] in multiset(t);
      assert forall k :: 0 <= k < |t| ==> t[k] == x || t[k] in s[1..];
    }
  }

  /** The sort yields a permutation of its input, tallest first. */
  lemma {:induction false} SortDescCorrect(s: seq<Sized>)
    ensures SortedDesc(SortDesc(s))
    ensures multiset(SortDesc(s)) == multiset(s)
  {
    if s != [] {
      var n := |s| - 1;
      SortDescCorrect(s[..n]);
      InsertDescSorted(s[n], SortDesc(s[..n]));
      assert s == s[..n] + [s[n]];
    }
  }

  lemma {:induction false} OfHeightPrepend(x: Sized, s: seq<Sized>, h: real)
    ensures OfHeight([x] + s, h) == (if x.height == h then [x] else []) + OfHeight(s, h)
  {
    if s != [] {
      var n := |s| - 1;
      assert ([x] + s)[..n + 1] == [x] + s[..n];
      OfHeightPrepend(x, s[..n], h);
    } else {
      assert ([x] + s)[..0] == [];
    }
  }

  lemma {:induction false} OfHeightAllShorter(s: seq<Sized>, h: real)
    requires forall k :: 0 <= k < |s| ==> s[k].height < h
    ensures OfHeight(s, h) == []
  {
    if s != [] {
      OfHeightAllShorter(s[..|s| - 1], h);
    }
  }

  /** Inserting into a sorted list places `x` behind every entry of its
      height, so the entries of each height keep their order. */
  lemma {:induction false} OfHeightInsert(x: Sized, s: seq<Sized>, h: real)
    requires SortedDesc(s)
    ensures OfHeight(InsertDesc(x, s), h) == OfHeight(s, h) + (if x.height == h then [x] else [])
  {
    if s == [] {
      assert OfHeight([x], h) == OfHeight([], h) + (if x.height == h then [x] else []) by {
        assert [x][..0] == [];
      }
    } else if s[0].height < x.height {
      OfHeightPrepend(x, s, h);
      if x.height == h {
        OfHeightAllShorter(s, h);
      }
    } else {
      OfHeightInsert(x, s[1..], h);
      OfHeightPrepend(s[0], InsertDesc(x, s[1..]), h);
      OfHeightPrepend(s[0], s[1..], h);
      assert s == [s[0]] + s[1..];
    }
  }

  /** Stability: among entries of equal height the sort keeps input order. */
  lemma {:induction false} SortDescStable(s: seq<Sized>, h: real)
    ensures OfHeight(SortDesc(s), h) == OfHeight(s, h)
  {
    if s != [] {
      var n := |s| - 1;
      SortDescStable(s[..n], h);
      SortDescCorrect(s[..n]);
      OfHeightInsert(s[n], SortDesc(s[..n]), h);
    }
  }
}
