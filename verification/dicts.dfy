/** Python dictionaries as the corpus scripts use them, and their descending
    sort.  A dictionary is its items in insertion order; assigning to a
    present key replaces the value in place, assigning to a new key appends.
    `dict(sorted(d.items(), key=..., reverse=True))` is Python's stable sort
    in descending key order: equal keys keep their order. */
module Dicts {
  import opened Text

  type Items<V> = seq<(string, V)>

  function KeysOf<V>(d: Items<V>): (r: seq<string>)
    ensures |r| == |d| && forall i :: 0 <= i < |d| ==> r[i] == d[i].0
  {
    seq(|d|, i requires 0 <= i < |d| => d[i].0)
  }

  predicate DistinctKeys<V>(d: Items<V>)
  {
    forall i, j :: 0 <= i < j < |d| ==> d[i].0 != d[j].0
  }

  /** `d.get(k)`: the value of the first item with key `k`. */
  function Get<V>(d: Items<V>, k: string): (r: Option<V>)
  {
    if |d| == 0 then None
    else if d[0].0 == k then Some(d[0].1)
    else Get(d[1..], k)
  }

  /** `d.get(k)` is `None` exactly for the missing keys, and otherwise the
      value of an item with key `k`. */
  lemma {:induction false} GetSpec<V>(d: Items<V>, k: string)
    ensures Get(d, k).None? <==> k !in KeysOf(d)
    ensures Get(d, k).Some? ==> (k, Get(d, k).value) in d
    decreases |d|
  {
    if |d| > 0 {
      assert KeysOf(d) == [d[0].0] + KeysOf(d[1..]);
      if d[0].0 != k {
        GetSpec(d[1..], k);
      }
    }
  }

  /** `d[k] = v`. */
  function Put<V>(d: Items<V>, k: string, v: V): (r: Items<V>)
    ensures |r| == if k in KeysOf(d) then |d| else |d| + 1
  {
    if |d| == 0 then [(k, v)]
    else if d[0].0 == k then [(k, v)] + d[1..]
    else
      assert KeysOf(d) == [d[0].0] + KeysOf(d[1..]);
      [d[0]] + Put(d[1..], k, v)
  }

  lemma KeysOfCons<V>(x: (string, V), t: Items<V>)
    ensures KeysOf([x] + t) == [x.0] + KeysOf(t)
  {
  }

  /** Assigning a present key keeps the keys; a new key is appended. */
  lemma {:induction false} PutKeys<V>(d: Items<V>, k: string, v: V)
    ensures k in KeysOf(d) ==> KeysOf(Put(d, k, v)) == KeysOf(d)
    ensures k !in KeysOf(d) ==> KeysOf(Put(d, k, v)) == KeysOf(d) + [k]
    decreases |d|
  {
    if |d| > 0 {
      var t := d[1..];
      assert d == [d[0]] + t;
      KeysOfCons(d[0], t);
      if d[0].0 != k {
        PutKeys(t, k, v);
        KeysOfCons(d[0], Put(t, k, v));
        assert k in KeysOf(d) <==> k in KeysOf(t);
      } else {
        KeysOfCons((k, v), t);
      }
    }
  }

  /** After `d[k] = v`, `k` holds `v` and every other key what it held. */
  lemma {:induction false} PutGet<V>(d: Items<V>, k: string, v: V, x: string)
    ensures Get(Put(d, k, v), x) == if x == k then Some(v) else Get(d, x)
    decreases |d|
  {
    if |d| > 0 && d[0].0 != k {
      PutGet(d[1..], k, v, x);
      var r := [d[0]] + Put(d[1..], k, v);
      assert r[0] == d[0] && r[1..] == Put(d[1..], k, v);
    } else if |d| > 0 {
      var r := [(k, v)] + d[1..];
      assert r[0] == (k, v) && r[1..] == d[1..];
    }
  }

  /** Assignment keeps the keys distinct. */
  lemma PutDistinct<V>(d: Items<V>, k: string, v: V)
    requires DistinctKeys(d)
    ensures DistinctKeys(Put(d, k, v))
  {
    var r := Put(d, k, v);
    PutKeys(d, k, v);
    forall i, j | 0 <= i < j < |r| ensures r[i].0 != r[j].0 {
      assert KeysOf(r)[i] == r[i].0 && KeysOf(r)[j] == r[j].0;
      if k !in KeysOf(d) && j == |d| {
        assert KeysOf(d)[i] == d[i].0;
      } else {
        assert KeysOf(d)[i] == d[i].0 && KeysOf(d)[j] == d[j].0;
      }
    }
  }

  /** Assigning a new key appends its item. */
  lemma {:induction false} PutNew<V>(d: Items<V>, k: string, v: V)
    requires k !in KeysOf(d)
    ensures Put(d, k, v) == d + [(k, v)]
    decreases |d|
  {
    if |d| > 0 {
      assert KeysOf(d) == [d[0].0] + KeysOf(d[1..]);
      PutNew(d[1..], k, v);
      assert d == [d[0]] + d[1..];
    }
  }

  /** `dict(items)`: the items assigned one after another. */
  function DictOf<V>(items: Items<V>): (r: Items<V>)
    ensures DistinctKeys(r)
  {
    if |items| == 0 then []
    else
      var d := DictOf(items[..|items| - 1]);
      PutDistinct(d, items[|items| - 1].0, items[|items| - 1].1);
      Put(d, items[|items| - 1].0, items[|items| - 1].1)
  }

  /** `dict(items)` of items with distinct keys is those items. */
  lemma {:induction false} DictOfDistinct<V>(items: Items<V>)
    requires DistinctKeys(items)
    ensures DictOf(items) == items
    decreases |items|
  {
    if |items| > 0 {
      var init := items[..|items| - 1];
      var x := items[|items| - 1];
      assert DistinctKeys(init) by {
        forall i, j | 0 <= i < j < |init| ensures init[i].0 != init[j].0 {
          assert init[i] == items[i] && init[j] == items[j];
        }
      }
      DictOfDistinct(init);
      assert x.0 !in KeysOf(init) by {
        forall i | 0 <= i < |init| ensures KeysOf(init)[i] != x.0 {
          assert init[i] == items[i];
        }
      }
      PutNew(init, x.0, x.1);
      assert init + [x] == items;
    }
  }

  // ---------------------------------------------------------------------------
  // Stable descending sort

  /** `x` placed before the first element whose key is at most its own. */
  function Insert<T>(x: T, s: seq<T>, key: T -> real): (r: seq<T>)
    ensures |r| == |s| + 1 && multiset(r) == multiset(s) + multiset{x}
  {
    if |s| == 0 then [x]
    else if key(s[0]) > key(x) then
      assert s == [s[0]] + s[1..];
      [s[0]] + Insert(x, s[1..], key)
    else [x] + s
  }

  /** `sorted(s, key=key, reverse=True)`: the head inserted into the sorted
      tail, ahead of the tail's elements of equal key. */
  function SortDesc<T>(s: seq<T>, key: T -> real): (r: seq<T>)
    ensures multiset(r) == multiset(s)
  {
    if |s| == 0 then []
    else
      assert s == [s[0]] + s[1..];
      Insert(s[0], SortDesc(s[1..], key), key)
  }

  predicate Descending<T>(s: seq<T>, key: T -> real)
  {
    forall i, j :: 0 <= i < j < |s| ==> key(s[i]) >= key(s[j])
  }

  /** `[x]` if `x` has key `k`, else nothing. */
  function Only<T>(x: T, key: T -> real, k: real): (r: seq<T>)
    ensures r == [] || r == [x]
  {
    if key(x) == k then [x] else []
  }

  /** The elements whose key is `k`, in order. */
  function WithKey<T>(s: seq<T>, key: T -> real, k: real): (r: seq<T>)
    ensures |r| <= |s|
  {
    if |s| == 0 then []
    else Only(s[0], key, k) + WithKey(s[1..], key, k)
  }

  lemma {:induction false} InsertDescending<T>(x: T, s: seq<T>, key: T -> real)
    requires Descending(s, key)
    ensures Descending(Insert(x, s, key), key)
    decreases |s|
  {
    if |s| > 0 && key(s[0]) > key(x) {
      assert Descending(s[1..], key) by {
        forall i, j | 0 <= i < j < |s[1..]| ensures key(s[1..][i]) >= key(s[1..][j]) {
          assert s[1..][i] == s[i + 1] && s[1..][j] == s[j + 1];
        }
      }
      InsertDescending(x, s[1..], key);
      var r := Insert(x, s, key);
      var t := Insert(x, s[1..], key);
      forall i, j | 0 <= i < j < |r| ensures key(r[i]) >= key(r[j]) {
        if i == 0 {
          assert r[0] == s[0] && r[j] == t[j - 1];
          assert t[j - 1] in multiset(t);
          assert t[j - 1] == x || t[j - 1] in multiset(s[1..]);
          if t[j - 1] != x {
            var m :| 0 <= m < |s[1..]| && s[1..][m] == t[j - 1];
            assert s[1..][m] == s[m + 1];
          }
        } else {
          assert r[i] == t[i - 1] && r[j] == t[j - 1];
        }
      }
    } else if |s| > 0 {
      var r := Insert(x, s, key);
      assert r == [x] + s;
      forall i, j | 0 <= i < j < |r| ensures key(r[i]) >= key(r[j]) {
        assert r[j] == s[j - 1];
        if i > 0 {
          assert r[i] == s[i - 1];
        } else if j > 1 {
          assert key(s[0]) >= key(s[j - 1]);
        }
      }
    }
  }

  /** The sort puts the keys in non-increasing order. */
  lemma {:induction false} SortDescDescending<T>(s: seq<T>, key: T -> real)
    ensures Descending(SortDesc(s, key), key)
    decreases |s|
  {
    if |s| > 0 {
      SortDescDescending(s[1..], key);
      InsertDescending(s[0], SortDesc(s[1..], key), key);
    }
  }

  /** Inserting puts `x` ahead of every element of its key. */
  lemma {:induction false} InsertWithKey<T>(x: T, s: seq<T>, key: T -> real, k: real)
    ensures WithKey(Insert(x, s, key), key, k) == Only(x, key, k) + WithKey(s, key, k)
    decreases |s|
  {
    if |s| == 0 {
      assert [x][1..] == [];
      assert WithKey([x], key, k) == Only(x, key, k) + WithKey([], key, k);
    } else if key(s[0]) > key(x) {
      var t := Insert(x, s[1..], key);
      InsertWithKey(x, s[1..], key, k);
      var r := [s[0]] + t;
      assert r[0] == s[0] && r[1..] == t;
      assert WithKey(r, key, k) == Only(s[0], key, k) + WithKey(t, key, k);
      assert WithKey(s, key, k) == Only(s[0], key, k) + WithKey(s[1..], key, k);
      if key(x) == k {
        assert Only(s[0], key, k) == [];
        assert WithKey(r, key, k) == WithKey(t, key, k);
        assert WithKey(s, key, k) == WithKey(s[1..], key, k);
      } else {
        assert Only(x, key, k) == [];
        assert WithKey(t, key, k) == WithKey(s[1..], key, k);
      }
    } else {
      var r := [x] + s;
      assert r[0] == x && r[1..] == s;
      assert WithKey(r, key, k) == Only(x, key, k) + WithKey(s, key, k);
    }
  }

  /** The sort is stable: the elements of any one key keep their order. */
  lemma {:induction false} SortDescStable<T>(s: seq<T>, key: T -> real, k: real)
    ensures WithKey(SortDesc(s, key), key, k) == WithKey(s, key, k)
    decreases |s|
  {
    if |s| > 0 {
      SortDescStable(s[1..], key, k);
      InsertWithKey(s[0], SortDesc(s[1..], key), key, k);
    }
  }

  /** Sorting a dictionary's items keeps its keys distinct. */
  lemma {:induction false} SortDescDistinct<V>(d: Items<V>, key: ((string, V)) -> real)
    requires DistinctKeys(d)
    ensures DistinctKeys(SortDesc(d, key))
    decreases |d|
  {
    if |d| > 0 {
      var tail := d[1..];
      assert DistinctKeys(tail) by {
        forall i, j | 0 <= i < j < |tail| ensures tail[i].0 != tail[j].0 {
          assert tail[i] == d[i + 1] && tail[j] == d[j + 1];
        }
      }
      SortDescDistinct(tail, key);
      var t := SortDesc(tail, key);
      forall i | 0 <= i < |t| ensures t[i].0 != d[0].0 {
        assert t[i] in multiset(tail);
        var j :| 0 <= j < |tail| && tail[j] == t[i];
        assert tail[j] == d[j + 1];
      }
      InsertDistinct(d[0], t, key);
    }
  }

  /** Inserting brings in no key other than `x`'s. */
  lemma {:induction false} InsertAvoids<V>(x: (string, V), s: Items<V>, key: ((string, V)) -> real, k: string)
    requires x.0 != k && forall i :: 0 <= i < |s| ==> s[i].0 != k
    ensures forall i :: 0 <= i < |Insert(x, s, key)| ==> Insert(x, s, key)[i].0 != k
    decreases |s|
  {
    var r := Insert(x, s, key);
    if |s| > 0 && key(s[0]) > key(x) {
      InsertAvoids(x, s[1..], key, k);
      var t := Insert(x, s[1..], key);
      forall i | 1 <= i < |r| ensures r[i].0 != k {
        assert r[i] == t[i - 1];
      }
    } else if |s| > 0 {
      forall i | 1 <= i < |r| ensures r[i].0 != k {
        assert r[i] == s[i - 1];
      }
    }
  }

  lemma {:induction false} InsertDistinct<V>(x: (string, V), s: Items<V>, key: ((string, V)) -> real)
    requires DistinctKeys(s) && forall i :: 0 <= i < |s| ==> s[i].0 != x.0
    ensures DistinctKeys(Insert(x, s, key))
    decreases |s|
  {
    var r := Insert(x, s, key);
    if |s| > 0 && key(s[0]) > key(x) {
      var tail := s[1..];
      assert DistinctKeys(tail) by {
        forall i, j | 0 <= i < j < |tail| ensures tail[i].0 != tail[j].0 {
          assert tail[i] == s[i + 1] && tail[j] == s[j + 1];
        }
      }
      InsertDistinct(x, tail, key);
      assert forall i :: 0 <= i < |tail| ==> tail[i].0 != s[0].0;
      InsertAvoids(x, tail, key, s[0].0);
      var t := Insert(x, tail, key);
      forall i, j | 0 <= i < j < |r| ensures r[i].0 != r[j].0 {
        assert r[j] == t[j - 1];
        if i > 0 {
          assert r[i] == t[i - 1];
        }
      }
    } else if |s| > 0 {
      assert r == [x] + s;
      forall i, j | 0 <= i < j < |r| ensures r[i].0 != r[j].0 {
        assert r[j] == s[j - 1];
        if i > 0 {
          assert r[i] == s[i - 1];
        }
      }
    }
  }

  /** `dict(sorted(d.items(), key=key, reverse=True))`. */
  function SortedDict<V>(d: Items<V>, key: ((string, V)) -> real): (r: Items<V>)
  {
    DictOf(SortDesc(d, key))
  }

  /** Sorting a dictionary reorders its items: no item is lost, added or
      changed, the values are in descending order and items of equal value
      keep their order. */
  lemma SortedDictSorts<V>(d: Items<V>, key: ((string, V)) -> real, k: real)
    requires DistinctKeys(d)
    ensures SortedDict(d, key) == SortDesc(d, key)
    ensures multiset(SortedDict(d, key)) == multiset(d)
    ensures Descending(SortedDict(d, key), key)
    ensures WithKey(SortedDict(d, key), key, k) == WithKey(d, key, k)
  {
    SortDescDistinct(d, key);
    DictOfDistinct(SortDesc(d, key));
    SortDescDescending(d, key);
    SortDescStable(d, key, k);
  }
}
