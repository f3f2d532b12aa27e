/** The insertion-ordered `Map<string, V>` of JavaScript, as the stores use it:
    `set` replaces the value in place when the key is present and appends
    otherwise, `delete` drops the key, `Array.from(map)` lists the entries in
    order and `new Map(entries)` replays `set` over an entry array. */
module JsMap {
  import opened Common

  type Entries<V> = seq<(string, V)>

  function Keys<V>(m: Entries<V>): (ks: seq<string>)
    ensures |ks| == |m|
    ensures forall i :: 0 <= i < |m| ==> ks[i] == m[i].0
  {
    if m == [] then [] else [m[0].0] + Keys(m[1..])
  }

  /** The invariant every `Map` value keeps: a key occurs at most once. */
  predicate NoDupKeys<V>(m: Entries<V>) {
    forall i, j :: 0 <= i < j < |m| ==> m[i].0 != m[j].0
  }

  predicate Has<V>(m: Entries<V>, k: string) {
    exists i :: 0 <= i < |m| && m[i].0 == k
  }

  /** `map.get(k)`: the value of the first entry with key `k`, or None. */
  function Get<V>(m: Entries<V>, k: string): (r: Option<V>)
    ensures r.None? <==> !Has(m, k)
    ensures r.Some? ==> exists i :: 0 <= i < |m| && m[i] == (k, r.value)
  {
    if m == [] then None
    else if m[0].0 == k then Some(m[0].1)
    else
      var r := Get(m[1..], k);
      assert r.Some? ==> exists i :: 0 <= i < |m| - 1 && m[1..][i] == (k, r.value);
      assert r.Some? ==> exists i :: 1 <= i < |m| && m[i] == (k, r.value);
      r
  }

  /** `map.set(k, v)`. */
  function Set<V>(m: Entries<V>, k: string, v: V): (r: Entries<V>)
  {
    if m == [] then [(k, v)]
    else if m[0].0 == k then [(k, v)] + m[1..]
    else [m[0]] + Set(m[1..], k, v)
  }

  /** `map.delete(k)`. */
  function Delete<V>(m: Entries<V>, k: string): (r: Entries<V>)
  {
    if m == [] then []
    else if m[0].0 == k then Delete(m[1..], k)
    else [m[0]] + Delete(m[1..], k)
  }

  /** `new Map(entries)`: `set` replayed over the entries, left to right. */
  function FromEntries<V>(s: Entries<V>): (r: Entries<V>)
  {
    if s == [] then [] else Set(FromEntries(s[..|s| - 1]), s[|s| - 1].0, s[|s| - 1].1)
  }

  /** The value of the last entry with key `k`, the one `new Map` keeps. */
  function LastValue<V>(s: Entries<V>, k: string): Option<V>
  {
    if s == [] then None
    else if s[|s| - 1].0 == k then Some(s[|s| - 1].1)
    else LastValue(s[..|s| - 1], k)
  }

  /** After `set(k, v)`, `get(k)` is `v` and every other key reads as before. */
  lemma {:induction false} GetSet<V>(m: Entries<V>, k: string, v: V, k': string)
    ensures Get(Set(m, k, v), k') == if k' == k then Some(v) else Get(m, k')
  {
    if m != [] && m[0].0 != k {
      GetSet(m[1..], k, v, k');
    }
  }

  /** `set` keeps the order of the existing keys and appends a new one. */
  lemma {:induction false} KeysSet<V>(m: Entries<V>, k: string, v: V)
    ensures Keys(Set(m, k, v)) == if k in Keys(m) then Keys(m) else Keys(m) + [k]
  {
    if m != [] && m[0].0 != k {
      KeysSet(m[1..], k, v);
      assert Keys(m) == [m[0].0] + Keys(m[1..]);
    }
  }

  /** `set` touches only the entry of `k` and leaves every other entry in place. */
  lemma {:induction false} SetFrame<V>(m: Entries<V>, k: string, v: V)
    ensures |Set(m, k, v)| == if Has(m, k) then |m| else |m| + 1
    ensures forall i :: 0 <= i < |m| && m[i].0 != k ==> Set(m, k, v)[i] == m[i]
  {
    if m != [] && m[0].0 != k {
      SetFrame(m[1..], k, v);
      assert Has(m, k) <==> Has(m[1..], k) by {
        if Has(m, k) {
          var i :| 0 <= i < |m| && m[i].0 == k;
          assert m[1..][i - 1].0 == k;
        }
        if Has(m[1..], k) {
          var i :| 0 <= i < |m| - 1 && m[1..][i].0 == k;
          assert m[i + 1].0 == k;
        }
      }
    } else if m != [] {
      assert Has(m, k);
    }
  }

  lemma {:induction false} KeysDelete<V>(m: Entries<V>, k: string)
    ensures forall x :: x in Keys(Delete(m, k)) <==> x in Keys(m) && x != k
  {
    if m != [] {
      KeysDelete(m[1..], k);
      assert Keys(m) == [m[0].0] + Keys(m[1..]);
      if m[0].0 != k {
        assert Keys(Delete(m, k)) == [m[0].0] + Keys(Delete(m[1..], k));
      }
    }
  }

  /** After `delete(k)`, `get(k)` is None and every other key reads as before. */
  lemma {:induction false} GetDelete<V>(m: Entries<V>, k: string, k': string)
    ensures Get(Delete(m, k), k') == if k' == k then None else Get(m, k')
  {
    if m != [] {
      GetDelete(m[1..], k, k');
    }
  }

  lemma HasKeys<V>(m: Entries<V>, k: string)
    ensures Has(m, k) <==> k in Keys(m)
  {
    if Has(m, k) {
      var i :| 0 <= i < |m| && m[i].0 == k;
      assert Keys(m)[i] == k;
    }
  }

  /** `set` and `delete` keep keys unique. */
  lemma {:induction false} SetNoDup<V>(m: Entries<V>, k: string, v: V)
    requires NoDupKeys(m)
    ensures NoDupKeys(Set(m, k, v))
  {
    KeysSet(m, k, v);
    HasKeys(m, k);
    var r := Set(m, k, v);
    forall i, j | 0 <= i < j < |r| ensures r[i].0 != r[j].0 {
      assert Keys(r)[i] == r[i].0 && Keys(r)[j] == r[j].0;
    }
  }

  lemma {:induction false} DeleteNoDup<V>(m: Entries<V>, k: string)
    requires NoDupKeys(m)
    ensures NoDupKeys(Delete(m, k))
  {
    if m != [] {
      DeleteNoDup(m[1..], k);
      if m[0].0 != k {
        KeysDelete(m[1..], k);
        var d := Delete(m[1..], k);
        forall j | 0 <= j < |d| ensures d[j].0 != m[0].0 {
          assert Keys(d)[j] == d[j].0;
          assert d[j].0 in Keys(m[1..]);
          var t :| 0 <= t < |m[1..]| && Keys(m[1..])[t] == d[j].0;
          assert m[t + 1].0 == d[j].0;
        }
      }
    }
  }

  /** A key-unique entry array hydrates to itself: `new Map(Array.from(m))`
      lists exactly the entries of `m`, in the same order. */
  lemma {:induction false} FromEntriesOfUnique<V>(s: Entries<V>)
    requires NoDupKeys(s)
    ensures FromEntries(s) == s
  {
    if s != [] {
      var n := |s| - 1;
      FromEntriesOfUnique(s[..n]);
      AppendFresh(s[..n], s[n].0, s[n].1);
      assert s[..n] + [s[n]] == s;
    }
  }

  lemma {:induction false} AppendFresh<V>(m: Entries<V>, k: string, v: V)
    requires forall i :: 0 <= i < |m| ==> m[i].0 != k
    ensures Set(m, k, v) == m + [(k, v)]
  {
    if m != [] {
      AppendFresh(m[1..], k, v);
      assert m == [m[0]] + m[1..];
    }
  }

  /** `new Map(entries)` keeps, for every key, the value of its last entry. */
  lemma {:induction false} GetFromEntries<V>(s: Entries<V>, k: string)
    ensures Get(FromEntries(s), k) == LastValue(s, k)
  {
    if s != [] {
      var n := |s| - 1;
      GetFromEntries(s[..n], k);
      GetSet(FromEntries(s[..n]), s[n].0, s[n].1, k);
    }
  }

  lemma {:induction false} FromEntriesNoDup<V>(s: Entries<V>)
    ensures NoDupKeys(FromEntries(s))
  {
    if s != [] {
      FromEntriesNoDup(s[..|s| - 1]);
      SetNoDup(FromEntries(s[..|s| - 1]), s[|s| - 1].0, s[|s| - 1].1);
    }
  }

  /** In a key-unique entry array the first and the last entry of a key are
      the same entry. */
  lemma {:induction false} LastValueUnique<V>(m: Entries<V>, k: string)
    requires NoDupKeys(m)
    ensures LastValue(m, k) == Get(m, k)
  {
    if m != [] {
      var n := |m| - 1;
      LastValueUnique(m[..n], k);
      GetPrefix(m, k);
      if m[n].0 == k && n > 0 {
        assert !Has(m[..n], k);
      }
    }
  }

  /** Dropping the last entry leaves `get` of any other key unchanged, and of
      a key not in the prefix, `get` reads the last entry. */
  lemma {:induction false} GetPrefix<V>(m: Entries<V>, k: string)
    requires m != []
    ensures Get(m, k) == if Has(m[..|m| - 1], k) then Get(m[..|m| - 1], k)
                         else if m[|m| - 1].0 == k then Some(m[|m| - 1].1) else None
  {
    if |m| > 1 {
      GetPrefix(m[1..], k);
      assert m[1..][..|m| - 2] == m[..|m| - 1][1..];
      if m[0].0 != k {
        assert Has(m[..|m| - 1], k) <==> Has(m[1..][..|m| - 2], k) by {
          if Has(m[..|m| - 1], k) {
            var i :| 0 <= i < |m| - 1 && m[..|m| - 1][i].0 == k;
            assert m[1..][..|m| - 2][i - 1].0 == k;
          }
          if Has(m[1..][..|m| - 2], k) {
            var i :| 0 <= i < |m| - 2 && m[1..][..|m| - 2][i].0 == k;
            assert m[..|m| - 1][i + 1].0 == k;
          }
        }
      } else {
        assert m[..|m| - 1][0].0 == k;
      }
    }
  }
}
