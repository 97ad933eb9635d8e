/**
 * A Python `dict` as the sequence of its items in iteration order.
 *
 * Python dicts iterate in insertion order: assigning to a key that is already
 * present replaces its value in place, assigning to a new key appends it, and
 * `del` removes a key and closes the gap. `ToMap` is the order-free view.
 */
module PyDict {

  type Dict<K, V> = seq<(K, V)>

  /** The keys in iteration order. */
  function Keys<K, V>(d: Dict<K, V>): (ks: seq<K>)
    ensures |ks| == |d|
    ensures forall i :: 0 <= i < |d| ==> ks[i] == d[i].0
  {
    seq(|d|, i requires 0 <= i < |d| => d[i].0)
  }

  /** The representation invariant of a dict: no key occurs twice. */
  predicate UniqueKeys<K(==), V>(d: Dict<K, V>) {
    forall i, j :: 0 <= i < j < |d| ==> d[i].0 != d[j].0
  }

  /** The position of key `k` in iteration order. */
  function IndexOf<K(==), V>(d: Dict<K, V>, k: K): (i: nat)
    requires k in Keys(d)
    ensures i < |d| && d[i].0 == k
    ensures forall j :: 0 <= j < i ==> d[j].0 != k
  {
    if d[0].0 == k then 0
    else
      assert k in Keys(d[1..]) by {
        var j :| 0 <= j < |d| && Keys(d)[j] == k;
        assert j != 0;
        assert Keys(d[1..])[j - 1] == k;
      }
      1 + IndexOf(d[1..], k)
  }

  lemma IndexOfAt<K, V>(d: Dict<K, V>, i: nat)
    requires UniqueKeys(d) && i < |d|
    ensures d[i].0 in Keys(d) && IndexOf(d, d[i].0) == i
  {
    assert Keys(d)[i] == d[i].0;
  }

  /** `d[k]` for a present key. */
  function Get<K(==), V>(d: Dict<K, V>, k: K): (v: V)
    requires k in Keys(d)
  {
    d[IndexOf(d, k)].1
  }

  /** The dict as a finite map, forgetting the order. */
  function ToMap<K(==), V>(d: Dict<K, V>): (m: map<K, V>) {
    map k | k in Keys(d) :: Get(d, k)
  }

  /** The sequence `ks` with every occurrence of `k` dropped, order kept. */
  function Without<K(==)>(ks: seq<K>, k: K): (r: seq<K>)
    ensures k !in r
    ensures forall x :: x in r ==> x in ks && x != k
    ensures forall x :: x in ks && x != k ==> x in r
  {
    if ks == [] then []
    else (if ks[0] == k then [] else [ks[0]]) + Without(ks[1..], k)
  }

  /** `d[k] = v`. */
  function Set<K(==), V>(d: Dict<K, V>, k: K, v: V): (r: Dict<K, V>)
    requires UniqueKeys(d)
    ensures UniqueKeys(r)
    ensures ToMap(r) == ToMap(d)[k := v]
    ensures k in Keys(d) ==> Keys(r) == Keys(d)
    ensures k !in Keys(d) ==> Keys(r) == Keys(d) + [k]
  {
    if k in Keys(d) then
      var i := IndexOf(d, k);
      var r := d[i := (k, v)];
      assert Keys(r) == Keys(d);
      forall x | x in Keys(r) ensures Get(r, x) == ToMap(d)[k := v][x] {
        var j := IndexOf(r, x);
        IndexOfAt(d, j);
      }
      r
    else
      var r := d + [(k, v)];
      assert Keys(r) == Keys(d) + [k];
      forall x | x in Keys(r) ensures Get(r, x) == ToMap(d)[k := v][x] {
        var j := IndexOf(r, x);
        if x != k {
          assert j < |d|;
          IndexOfAt(d, j);
        }
      }
      r
  }

  /** `del d[k]`, which the callers only issue for a present key. */
  function Delete<K(==), V>(d: Dict<K, V>, k: K): (r: Dict<K, V>)
    requires UniqueKeys(d) && k in Keys(d)
    ensures UniqueKeys(r)
    ensures ToMap(r) == ToMap(d) - {k}
    ensures Keys(r) == Without(Keys(d), k)
  {
    var i := IndexOf(d, k);
    DeleteAt(d, i);
    WithoutUnique(d, i);
    d[..i] + d[i + 1..]
  }

  /** Closing the gap at position `i` removes exactly that key from the map view. */
  lemma DeleteAt<K, V>(d: Dict<K, V>, i: nat)
    requires UniqueKeys(d) && i < |d|
    ensures UniqueKeys(d[..i] + d[i + 1..])
    ensures ToMap(d[..i] + d[i + 1..]) == ToMap(d) - {d[i].0}
  {
    var k := d[i].0;
    var r := d[..i] + d[i + 1..];
    forall a, b | 0 <= a < b < |r| ensures r[a].0 != r[b].0 {
      GapAt(d, i, a);
      GapAt(d, i, b);
    }
    var m, m' := ToMap(r), ToMap(d) - {k};
    forall x | x in Keys(r) ensures x in Keys(d) && x != k && Get(r, x) == Get(d, x) {
      var j := IndexOf(r, x);
      GapAt(d, i, j);
      IndexOfAt(d, Skip(i, j));
    }
    forall x | x in Keys(d) && x != k ensures x in Keys(r) {
      var j := IndexOf(d, x);
      var j' := if j < i then j else j - 1;
      GapAt(d, i, j');
      assert Keys(r)[j'] == x;
    }
    assert m.Keys == m'.Keys;
  }

  lemma GapAt<T>(d: seq<T>, i: nat, j: nat)
    requires i < |d| && j < |d| - 1
    ensures (d[..i] + d[i + 1..])[j] == d[Skip(i, j)]
  {
    if j < i { assert (d[..i] + d[i + 1..])[j] == d[..i][j]; }
    else { assert (d[..i] + d[i + 1..])[j] == d[i + 1..][j - i]; }
  }

  /** The position in a dict of the `j`-th item left after the one at `i` is dropped. */
  function Skip(i: nat, j: nat): (p: nat) {
    if j < i then j else j + 1
  }

  /** Dropping the key at position `i` of a dict with unique keys. */
  lemma {:induction false} WithoutUnique<K, V>(d: Dict<K, V>, i: nat)
    requires UniqueKeys(d) && i < |d|
    ensures Keys(d[..i] + d[i + 1..]) == Without(Keys(d), d[i].0)
  {
    var k := d[i].0;
    if i == 0 {
      assert Keys(d)[1..] == Keys(d[1..]);
      WithoutAbsent(Keys(d[1..]), k);
    } else {
      WithoutUnique(d[1..], i - 1);
      assert d[1..][..i - 1] + d[1..][i..] == (d[..i] + d[i + 1..])[1..];
      assert Keys(d)[1..] == Keys(d[1..]);
      assert d[0].0 != k;
    }
  }

  lemma {:induction false} WithoutAbsent<K>(ks: seq<K>, k: K)
    requires k !in ks
    ensures Without(ks, k) == ks
  {
    if ks != [] {
      assert k !in ks[1..];
      WithoutAbsent(ks[1..], k);
    }
  }

  /** Assigning twice to one key leaves only the second value, in the first one's place. */
  lemma SetTwice<K, V>(d: Dict<K, V>, k: K, v1: V, v2: V)
    requires UniqueKeys(d)
    ensures Set(Set(d, k, v1), k, v2) == Set(d, k, v2)
  {
    var d1 := Set(d, k, v1);
    var a, b := Set(d1, k, v2), Set(d, k, v2);
    assert Keys(a) == Keys(b);
    forall j | 0 <= j < |a| ensures a[j] == b[j] {
      IndexOfAt(a, j);
      IndexOfAt(b, j);
      assert a[j].0 == b[j].0;
      assert ToMap(a)[a[j].0] == a[j].1;
      assert ToMap(b)[b[j].0] == b[j].1;
    }
  }

  /** Deleting a key and assigning it again moves it to the end of the iteration order. */
  lemma DeleteThenSetMovesToEnd<K, V>(d: Dict<K, V>, k: K, v: V)
    requires UniqueKeys(d) && k in Keys(d)
    ensures Keys(Set(Delete(d, k), k, v)) == Without(Keys(d), k) + [k]
    ensures ToMap(Set(Delete(d, k), k, v)) == ToMap(d)[k := v]
  {
    var d1 := Delete(d, k);
    assert k !in Keys(d1);
    var m, m' := (ToMap(d) - {k})[k := v], ToMap(d)[k := v];
    assert m.Keys == m'.Keys;
    assert forall x | x in m :: m[x] == m'[x];
  }
}
