/**
 * A PHP array is an ordered dictionary. It is modelled as the sequence of its
 * (key, value) pairs in iteration order, with no key twice. Assigning to an
 * existing key replaces its value where it stands; assigning to a new key
 * appends the pair.
 */
module PhpArrays {
  import opened Outcomes

  /** No key occurs twice: every PHP array has this shape. */
  predicate DistinctKeys<K(==), V>(a: seq<(K, V)>) {
    forall i, j :: 0 <= i < j < |a| ==> a[i].0 != a[j].0
  }

  /** The keys in iteration order (`array_keys`). */
  function Keys<K, V>(a: seq<(K, V)>): (r: seq<K>)
    ensures |r| == |a| && forall i :: 0 <= i < |a| ==> r[i] == a[i].0
  {
    if a == [] then [] else [a[0].0] + Keys(a[1..])
  }

  /** `$a[$k]`, None when the key is not set. */
  function Get<K(==), V>(a: seq<(K, V)>, k: K): (r: Option<V>)
    ensures r.Some? <==> exists i :: 0 <= i < |a| && a[i].0 == k
    ensures r.Some? ==> exists i :: 0 <= i < |a| && a[i] == (k, r.value)
  {
    if a == [] then None
    else if a[0].0 == k then Some(a[0].1)
    else
      var r := Get(a[1..], k);
      assert forall i :: 0 < i < |a| ==> a[i] == a[1..][i - 1];
      r
  }

  /** `array_key_exists($k, $a)` */
  predicate HasKey<K(==), V>(a: seq<(K, V)>, k: K) {
    Get(a, k).Some?
  }

  /** `array_search($v, $a)`: the key of the first pair whose value is `v`. */
  function Search<K, V(==)>(a: seq<(K, V)>, v: V): (r: Option<K>)
    ensures r.None? <==> forall i :: 0 <= i < |a| ==> a[i].1 != v
    ensures r.Some? ==> exists i :: 0 <= i < |a| && a[i] == (r.value, v) && forall j :: 0 <= j < i ==> a[j].1 != v
  {
    if a == [] then None
    else if a[0].1 == v then Some(a[0].0)
    else
      var r := Search(a[1..], v);
      assert forall i :: 0 < i < |a| ==> a[i] == a[1..][i - 1];
      r
  }

  /** `$a[$k] = $v` */
  function Put<K(==), V>(a: seq<(K, V)>, k: K, v: V): (r: seq<(K, V)>)
    ensures |r| == |a| || r == a + [(k, v)]
  {
    if a == [] then [(k, v)]
    else if a[0].0 == k then [(k, v)] + a[1..]
    else [a[0]] + Put(a[1..], k, v)
  }

  /** After the assignment the key holds the new value. */
  lemma {:induction false} PutGet<K, V>(a: seq<(K, V)>, k: K, v: V)
    ensures Get(Put(a, k, v), k) == Some(v)
  {
    if a != [] && a[0].0 != k {
      PutGet(a[1..], k, v);
      assert Put(a, k, v)[1..] == Put(a[1..], k, v);
    }
  }

  /** Every other key keeps its value, or stays unset. */
  lemma {:induction false} PutOther<K, V>(a: seq<(K, V)>, k: K, v: V, k': K)
    requires k' != k
    ensures Get(Put(a, k, v), k') == Get(a, k')
  {
    if a != [] {
      var r := Put(a, k, v);
      if a[0].0 == k {
        assert r[1..] == a[1..];
      } else {
        PutOther(a[1..], k, v, k');
        assert r[1..] == Put(a[1..], k, v);
      }
    }
  }

  /** An existing key is replaced where it stands; a new key is appended. */
  lemma {:induction false} PutOrder<K, V>(a: seq<(K, V)>, k: K, v: V)
    ensures HasKey(a, k) ==> |Put(a, k, v)| == |a| && Keys(Put(a, k, v)) == Keys(a)
    ensures !HasKey(a, k) ==> Put(a, k, v) == a + [(k, v)]
  {
    if a != [] && a[0].0 != k {
      PutOrder(a[1..], k, v);
      var r := Put(a, k, v);
      assert r[1..] == Put(a[1..], k, v);
      assert Get(a, k) == Get(a[1..], k);
      if HasKey(a, k) {
        assert Keys(r) == [r[0].0] + Keys(r[1..]);
        assert Keys(a) == [a[0].0] + Keys(a[1..]);
      } else {
        assert a == [a[0]] + a[1..];
      }
    }
  }

  /** The assignment keeps the keys distinct. */
  lemma PutDistinct<K, V>(a: seq<(K, V)>, k: K, v: V)
    requires DistinctKeys(a)
    ensures DistinctKeys(Put(a, k, v))
  {
    PutOrder(a, k, v);
    var r := Put(a, k, v);
    if HasKey(a, k) {
      forall i | 0 <= i < |a| ensures r[i].0 == a[i].0 {
        assert Keys(r)[i] == Keys(a)[i];
      }
    } else {
      assert forall i :: 0 <= i < |a| ==> a[i].0 != k;
    }
  }

  /** In an array without repeated keys, each pair is found under its own key. */
  lemma {:induction false} GetAt<K, V>(a: seq<(K, V)>, i: nat)
    requires DistinctKeys(a) && i < |a|
    ensures Get(a, a[i].0) == Some(a[i].1)
  {
    if i > 0 {
      assert a[0].0 != a[i].0;
      assert DistinctKeys(a[1..]) by {
        forall p, q | 0 <= p < q < |a[1..]| ensures a[1..][p].0 != a[1..][q].0 {
          assert a[1..][p] == a[p + 1] && a[1..][q] == a[q + 1];
        }
      }
      GetAt(a[1..], i - 1);
      assert a[1..][i - 1] == a[i];
    }
  }

  /** Without repeated values, `array_search` finds each pair from its value. */
  lemma {:induction false} SearchAt<K, V>(a: seq<(K, V)>, i: nat)
    requires forall p, q :: 0 <= p < q < |a| ==> a[p].1 != a[q].1
    requires i < |a|
    ensures Search(a, a[i].1) == Some(a[i].0)
  {
    if i > 0 {
      assert a[0].1 != a[i].1;
      assert a[1..][i - 1] == a[i];
      SearchAt(a[1..], i - 1);
    }
  }

  /** Looking a key up in two arrays laid end to end: the first one wins. */
  lemma {:induction false} GetAppend<K, V>(a: seq<(K, V)>, b: seq<(K, V)>, k: K)
    ensures Get(a + b, k) == if Get(a, k).Some? then Get(a, k) else Get(b, k)
  {
    if a == [] {
      assert a + b == b;
    } else {
      assert (a + b)[0] == a[0];
      assert (a + b)[1..] == a[1..] + b;
      GetAppend(a[1..], b, k);
    }
  }

  /** Assigning to the key of the last pair, which no earlier pair has, replaces that pair. */
  lemma {:induction false} PutLast<K, V>(a: seq<(K, V)>, k: K, x: V, y: V)
    requires !HasKey(a, k)
    ensures Put(a + [(k, x)], k, y) == a + [(k, y)]
  {
    if a != [] {
      assert (a + [(k, x)])[0] == a[0];
      assert (a + [(k, x)])[1..] == a[1..] + [(k, x)];
      assert Get(a, k) == Get(a[1..], k);
      PutLast(a[1..], k, x, y);
      assert [a[0]] + (a[1..] + [(k, y)]) == a + [(k, y)];
    }
  }

  /** A prefix of an array keeps its keys distinct. */
  lemma DistinctPrefix<K, V>(a: seq<(K, V)>, n: nat)
    requires DistinctKeys(a) && n <= |a|
    ensures DistinctKeys(a[..n])
  {
    forall i, j | 0 <= i < j < n ensures a[..n][i].0 != a[..n][j].0 {
      assert a[..n][i] == a[i] && a[..n][j] == a[j];
    }
  }
}
