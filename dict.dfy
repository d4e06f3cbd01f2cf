/**
 * A Python `dict` keyed by text, modelled as an association list whose keys
 * are pairwise distinct, and `sorted(d.items())`, which orders the pairs by
 * key (keys being distinct, the values are never compared).
 */
module Dict {
  import opened Text

  datatype Option<T> = None | Some(value: T)

  type Dict<V> = seq<(string, V)>

  /** `d.get(k)`: the value stored under `k`, if any. */
  function Get<V>(d: Dict<V>, k: string): Option<V>
    decreases |d|
  {
    if |d| == 0 then None
    else if d[0].0 == k then Some(d[0].1)
    else Get(d[1..], k)
  }

  function KeySet<V>(d: Dict<V>): set<string> {
    set i | 0 <= i < |d| :: d[i].0
  }

  ghost predicate DistinctKeys<V>(d: Dict<V>) {
    forall i, j :: 0 <= i < j < |d| ==> d[i].0 != d[j].0
  }

  lemma KeySetCons<V>(x: (string, V), d: Dict<V>)
    ensures KeySet([x] + d) == {x.0} + KeySet(d)
  {
    var c := [x] + d;
    forall k | k in KeySet(c) ensures k in {x.0} + KeySet(d) {
      var i :| 0 <= i < |c| && c[i].0 == k;
      if i > 0 { assert d[i - 1].0 == k; }
    }
    forall k | k in KeySet(d) ensures k in KeySet(c) {
      var i :| 0 <= i < |d| && d[i].0 == k;
      assert c[i + 1].0 == k;
    }
    assert c[0].0 == x.0;
  }

  lemma {:induction false} GetSome<V>(d: Dict<V>, k: string)
    ensures Get(d, k).Some? <==> k in KeySet(d)
    decreases |d|
  {
    if |d| > 0 {
      GetSome(d[1..], k);
      assert KeySet(d) == {d[0].0} + KeySet(d[1..]);
    }
  }

  lemma GetCons<V>(x: (string, V), d: Dict<V>)
    ensures forall key :: Get([x] + d, key) == if x.0 == key then Some(x.1) else Get(d, key)
  {
    assert ([x] + d)[1..] == d;
  }

  lemma DistinctKeysCons<V>(x: (string, V), d: Dict<V>)
    ensures DistinctKeys([x] + d) <==> x.0 !in KeySet(d) && DistinctKeys(d)
  {
    var c := [x] + d;
    if DistinctKeys(c) {
      forall i | 0 <= i < |d| ensures d[i].0 != x.0 {
        assert c[0] == x && c[i + 1] == d[i];
      }
      forall i, j | 0 <= i < j < |d| ensures d[i].0 != d[j].0 {
        assert c[i + 1] == d[i] && c[j + 1] == d[j];
      }
    }
    if x.0 !in KeySet(d) && DistinctKeys(d) {
      forall i, j | 0 <= i < j < |c| ensures c[i].0 != c[j].0 {
        assert c[j] == d[j - 1] && c[j].0 in KeySet(d);
        if i > 0 {
          assert c[i] == d[i - 1];
        }
      }
    }
  }

  /** `d[k] = v`: overwrites the value of an existing key in place, or adds the key. */
  function Put<V>(d: Dict<V>, k: string, v: V): (r: Dict<V>)
    ensures Get(r, k) == Some(v)
    ensures forall k' :: k' != k ==> Get(r, k') == Get(d, k')
    ensures KeySet(r) == KeySet(d) + {k}
    decreases |d|
  {
    if |d| == 0 then [(k, v)]
    else if d[0].0 == k then
      KeySetCons(d[0], d[1..]);
      KeySetCons((k, v), d[1..]);
      GetCons((k, v), d[1..]);
      GetCons(d[0], d[1..]);
      [(k, v)] + d[1..]
    else
      var rest := Put(d[1..], k, v);
      KeySetCons(d[0], d[1..]);
      KeySetCons(d[0], rest);
      GetCons(d[0], rest);
      GetCons(d[0], d[1..]);
      [d[0]] + rest
  }

  /** Assigning a key keeps the keys pairwise distinct. */
  lemma {:induction false} PutDistinct<V>(d: Dict<V>, k: string, v: V)
    requires DistinctKeys(d)
    ensures DistinctKeys(Put(d, k, v))
    decreases |d|
  {
    if |d| > 0 {
      DistinctKeysCons(d[0], d[1..]);
      assert d == [d[0]] + d[1..];
      if d[0].0 == k {
        DistinctKeysCons((k, v), d[1..]);
      } else {
        PutDistinct(d[1..], k, v);
        DistinctKeysCons(d[0], Put(d[1..], k, v));
      }
    }
  }

  ghost predicate SortedKeys<V>(d: Dict<V>) {
    forall i, j :: 0 <= i < j < |d| ==> Less(d[i].0, d[j].0)
  }

  /** Places one pair into a key-sorted list, before the first larger key. */
  function Insert<V>(x: (string, V), s: Dict<V>): Dict<V>
    decreases |s|
  {
    if |s| == 0 then [x]
    else if Less(x.0, s[0].0) then [x] + s
    else [s[0]] + Insert(x, s[1..])
  }

  /** `sorted(d.items())` (an insertion sort on the keys). */
  function SortByKey<V>(d: Dict<V>): Dict<V>
    decreases |d|
  {
    if |d| == 0 then [] else Insert(d[0], SortByKey(d[1..]))
  }

  lemma {:induction false} InsertPermutes<V>(x: (string, V), s: Dict<V>)
    ensures multiset(Insert(x, s)) == multiset(s) + multiset{x}
    decreases |s|
  {
    if |s| > 0 && !Less(x.0, s[0].0) {
      InsertPermutes(x, s[1..]);
      assert s == [s[0]] + s[1..];
    }
  }

  lemma {:induction false} InsertSorted<V>(x: (string, V), s: Dict<V>)
    requires SortedKeys(s)
    requires x.0 !in KeySet(s)
    ensures SortedKeys(Insert(x, s))
    decreases |s|
  {
    if |s| == 0 {
    } else if Less(x.0, s[0].0) {
      forall j | 0 < j < |s| ensures Less(x.0, s[j].0) {
        LessTransitive(x.0, s[0].0, s[j].0);
      }
    } else {
      assert x.0 != s[0].0;
      LessTotal(x.0, s[0].0);
      var tail := s[1..];
      assert KeySet(tail) <= KeySet(s);
      InsertSorted(x, tail);
      var r := Insert(x, tail);
      InsertPermutes(x, tail);
      forall j | 0 <= j < |r| ensures Less(s[0].0, r[j].0) {
        assert r[j] in multiset(r);
        if r[j] != x {
          assert r[j] in multiset(tail);
          var m :| 0 <= m < |tail| && tail[m] == r[j];
          assert s[m + 1] == r[j];
        }
      }
    }
  }

  /**
   * `sorted(d.items())` of a dict holds exactly its pairs, in strictly
   * ascending key order.
   */
  lemma {:induction false} SortByKeyCorrect<V>(d: Dict<V>)
    requires DistinctKeys(d)
    ensures multiset(SortByKey(d)) == multiset(d)
    ensures SortedKeys(SortByKey(d))
    ensures KeySet(SortByKey(d)) == KeySet(d)
    decreases |d|
  {
    if |d| > 0 {
      var tail := d[1..];
      assert d == [d[0]] + tail;
      DistinctKeysCons(d[0], tail);
      SortByKeyCorrect(tail);
      var s := SortByKey(tail);
      InsertPermutes(d[0], s);
      InsertSorted(d[0], s);
      MultisetKeySet(SortByKey(d), d);
    }
  }

  lemma MultisetKeySet<V>(a: Dict<V>, b: Dict<V>)
    requires multiset(a) == multiset(b)
    ensures KeySet(a) == KeySet(b)
  {
    forall k | k in KeySet(a) ensures k in KeySet(b) {
      var i :| 0 <= i < |a| && a[i].0 == k;
      assert a[i] in multiset(b);
    }
    forall k | k in KeySet(b) ensures k in KeySet(a) {
      var i :| 0 <= i < |b| && b[i].0 == k;
      assert b[i] in multiset(a);
    }
  }

  function KeySeq<V>(d: Dict<V>): (r: seq<string>)
    ensures |r| == |d| && forall i :: 0 <= i < |d| ==> r[i] == d[i].0
    decreases |d|
  {
    if |d| == 0 then [] else [d[0].0] + KeySeq(d[1..])
  }

  /**
   * Two lists in strictly ascending key order with the same keys list those
   * keys identically: sorting fixes the order of the keys completely.
   */
  lemma {:induction false} SortedKeysUnique<V, W>(a: Dict<V>, b: Dict<W>)
    requires SortedKeys(a) && SortedKeys(b)
    requires KeySet(a) == KeySet(b)
    ensures KeySeq(a) == KeySeq(b)
    decreases |a|
  {
    KeySetEmpty(a);
    KeySetEmpty(b);
    if |a| > 0 {
      assert a[0].0 in KeySet(b);
      assert |b| > 0;
      assert b[0].0 in KeySet(a);
      var i :| 0 <= i < |b| && b[i].0 == a[0].0;
      var j :| 0 <= j < |a| && a[j].0 == b[0].0;
      if i > 0 {
        // b[0] comes before b[i] == a[0], which is at most a[j] == b[0]
        assert Less(b[0].0, a[0].0);
        if j > 0 {
          LessTransitive(b[0].0, a[0].0, a[j].0);
        }
        LessIrreflexive(b[0].0);
      }
      assert a[0].0 == b[0].0;
      assert KeySet(a) == {a[0].0} + KeySet(a[1..]);
      assert KeySet(b) == {b[0].0} + KeySet(b[1..]);
      forall k | k in KeySet(a[1..]) ensures k != a[0].0 {
        var m :| 0 <= m < |a[1..]| && a[1..][m].0 == k;
        assert Less(a[0].0, a[m + 1].0);
        LessIrreflexive(k);
      }
      forall k | k in KeySet(b[1..]) ensures k != b[0].0 {
        var m :| 0 <= m < |b[1..]| && b[1..][m].0 == k;
        assert Less(b[0].0, b[m + 1].0);
        LessIrreflexive(k);
      }
      SortedKeysUnique(a[1..], b[1..]);
      assert KeySeq(a) == [a[0].0] + KeySeq(a[1..]);
      assert KeySeq(b) == [b[0].0] + KeySeq(b[1..]);
    }
  }

  lemma KeySetEmpty<V>(d: Dict<V>)
    ensures KeySet(d) == {} <==> |d| == 0
  {
    if |d| > 0 {
      assert d[0].0 in KeySet(d);
    }
  }
}
