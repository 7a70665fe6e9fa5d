/**
 * PHP arrays with string keys keep their entries in insertion order, and the
 * diff engines emit calls in that order, so a keyed collection is a sequence
 * of (key, value) entries; PHP itself keeps the keys unique.
 */
module OrderedMaps {
  import opened Wrappers

  type OMap<V> = seq<(string, V)>

  function Keys<V>(m: OMap<V>): (ks: seq<string>)
    ensures |ks| == |m|
    ensures forall i :: 0 <= i < |m| ==> ks[i] == m[i].0
  {
    seq(|m|, i requires 0 <= i < |m| => m[i].0)
  }

  /** array_key_exists */
  predicate HasKey<V>(m: OMap<V>, k: string) {
    k in Keys(m)
  }

  predicate KeysUnique<V>(m: OMap<V>) {
    forall i, j :: 0 <= i < j < |m| ==> m[i].0 != m[j].0
  }

  function IndexOfKey<V>(m: OMap<V>, k: string): (i: nat)
    requires HasKey(m, k)
    ensures i < |m| && m[i].0 == k
    ensures forall j :: 0 <= j < i ==> m[j].0 != k
  {
    if m[0].0 == k then 0
    else
      KeysTail(m);
      1 + IndexOfKey(m[1..], k)
  }

  /** The keys of a non-empty array: the first key, then the keys of the rest. */
  lemma KeysTail<V>(m: OMap<V>)
    requires m != []
    ensures Keys(m) == [m[0].0] + Keys(m[1..])
  {
  }

  /** $m[$k] for a key that is present. */
  function Get<V>(m: OMap<V>, k: string): V
    requires HasKey(m, k)
  {
    m[IndexOfKey(m, k)].1
  }

  /** $m[$k] where an absent key reads as NULL. */
  function Lookup<V>(m: OMap<V>, k: string): (r: Option<V>)
    ensures r.Some? <==> HasKey(m, k)
    ensures r.Some? ==> r.value == Get(m, k)
  {
    if HasKey(m, k) then Some(Get(m, k)) else None
  }

  /** In a key-unique array, an entry's key finds that entry. */
  lemma GetAt<V>(m: OMap<V>, i: nat)
    requires KeysUnique(m) && i < |m|
    ensures HasKey(m, m[i].0) && IndexOfKey(m, m[i].0) == i && Get(m, m[i].0) == m[i].1
  {
    assert Keys(m)[i] == m[i].0;
  }

  /** $m[$k] = $v: overwrite in place when present, append otherwise. */
  function Put<V>(m: OMap<V>, k: string, v: V): (r: OMap<V>)
    ensures HasKey(m, k) ==> |r| == |m| && r[IndexOfKey(m, k)] == (k, v)
    ensures HasKey(m, k) ==> forall j :: 0 <= j < |m| && j != IndexOfKey(m, k) ==> r[j] == m[j]
    ensures !HasKey(m, k) ==> r == m + [(k, v)]
    ensures Keys(r) == if HasKey(m, k) then Keys(m) else Keys(m) + [k]
    ensures HasKey(r, k) && Get(r, k) == v
    ensures KeysUnique(m) ==> KeysUnique(r)
  {
    if HasKey(m, k) then
      var r := m[IndexOfKey(m, k) := (k, v)];
      assert Keys(r) == Keys(m);
      assert IndexOfKey(r, k) == IndexOfKey(m, k);
      r
    else
      var r := m + [(k, v)];
      assert Keys(r)[|m|] == k;
      r
  }

  /** The entries of b whose key a lacks, in b's order. */
  function Without<V(!new)>(b: OMap<V>, a: OMap<V>): (r: OMap<V>)
    ensures forall e :: e in r <==> e in b && !HasKey(a, e.0)
    ensures KeysUnique(b) ==> KeysUnique(r)
    ensures forall i :: 0 <= i < |r| ==> !HasKey(a, r[i].0)
    decreases |b|
  {
    if b == [] then []
    else
      var init := Without(b[..|b| - 1], a);
      var last := b[|b| - 1];
      assert forall e :: e in b <==> e in b[..|b| - 1] || e == last;
      if HasKey(a, last.0) then init
      else
        assert KeysUnique(b) ==> forall e :: e in init ==> e.0 != last.0;
        init + [last]
  }

  /** PHP's array union a + b: a's entries first, then b's new keys; a wins on clashes. */
  function Union<V(!new)>(a: OMap<V>, b: OMap<V>): (r: OMap<V>)
    ensures r == a + Without(b, a)
    ensures KeysUnique(a) && KeysUnique(b) ==> KeysUnique(r)
    ensures forall k :: HasKey(r, k) <==> HasKey(a, k) || HasKey(b, k)
  {
    UnionKeysUnique(a, b);
    forall k ensures HasKey(a + Without(b, a), k) <==> HasKey(a, k) || HasKey(b, k) {
      UnionHasKey(a, b, k);
    }
    a + Without(b, a)
  }

  lemma UnionKeysUnique<V(!new)>(a: OMap<V>, b: OMap<V>)
    ensures KeysUnique(a) && KeysUnique(b) ==> KeysUnique(a + Without(b, a))
  {
    var w := Without(b, a);
    var r := a + w;
    if KeysUnique(a) && KeysUnique(b) {
      forall i, j | 0 <= i < j < |r| ensures r[i].0 != r[j].0 {
        if i < |a| && j >= |a| {
          assert r[j] == w[j - |a|];
          assert Keys(a)[i] == r[i].0;
        }
      }
    }
  }

  lemma UnionHasKey<V(!new)>(a: OMap<V>, b: OMap<V>, k: string)
    ensures HasKey(a + Without(b, a), k) <==> HasKey(a, k) || HasKey(b, k)
  {
    var w := Without(b, a);
    var r := a + w;
    if HasKey(r, k) {
      var i :| 0 <= i < |r| && Keys(r)[i] == k;
      if i >= |a| {
        assert r[i] == w[i - |a|] && r[i] in w;
        assert r[i] in b;
        var j :| 0 <= j < |b| && b[j] == r[i];
        assert Keys(b)[j] == k;
      } else {
        assert Keys(a)[i] == k;
      }
    }
    if HasKey(a, k) {
      var i :| 0 <= i < |a| && Keys(a)[i] == k;
      assert Keys(r)[i] == k;
    } else if HasKey(b, k) {
      var j :| 0 <= j < |b| && Keys(b)[j] == k;
      assert b[j] in w;
      var i :| 0 <= i < |w| && w[i] == b[j];
      assert Keys(r)[|a| + i] == k;
    }
  }

  /** Reading a union: a's value when a has the key, else b's. */
  lemma UnionGet<V(!new)>(a: OMap<V>, b: OMap<V>, k: string)
    requires KeysUnique(b)
    requires HasKey(a, k) || HasKey(b, k)
    ensures HasKey(Union(a, b), k)
    ensures Get(Union(a, b), k) == if HasKey(a, k) then Get(a, k) else Get(b, k)
  {
    var r := Union(a, b);
    var w := Without(b, a);
    if HasKey(a, k) {
      var i := IndexOfKey(a, k);
      assert r[..|a|] == a;
      assert IndexOfKey(r, k) == i;
    } else {
      var j := IndexOfKey(b, k);
      assert b[j] in w;
      var i :| 0 <= i < |w| && w[i] == b[j];
      assert r[|a| + i].0 == k;
      var x := IndexOfKey(r, k);
      assert x >= |a|;
      assert r[x] in w by { assert r[x] == w[x - |a|]; }
      var y :| 0 <= y < |b| && b[y] == r[x];
      assert y == j;
    }
  }

  /** Writing key k leaves the lookup of every other key as it was. */
  lemma PutOther<V>(m: OMap<V>, k: string, v: V, n: string)
    requires n != k
    ensures Lookup(Put(m, k, v), n) == Lookup(m, n)
  {
    var r := Put(m, k, v);
    assert HasKey(r, n) <==> HasKey(m, n);
    if HasKey(m, n) {
      var i := IndexOfKey(m, n);
      assert r[i] == m[i];
      assert Keys(r)[i] == n;
      assert IndexOfKey(r, n) == i;
    }
  }

  /** Storing under one key leaves the lookup of every other key as it was. */
  lemma PutOthers<V>(m: OMap<V>, k: string, v: V)
    ensures forall n :: n != k ==> Lookup(Put(m, k, v), n) == Lookup(m, n)
  {
    forall n | n != k ensures Lookup(Put(m, k, v), n) == Lookup(m, n) {
      PutOther(m, k, v, n);
    }
  }

  /** Looking up in an array extended by one new key. */
  lemma LookupSnoc<V>(m: OMap<V>, k: string, v: V, n: string)
    requires KeysUnique(m + [(k, v)])
    ensures KeysUnique(m) && !HasKey(m, k)
    ensures HasKey(m + [(k, v)], n) <==> HasKey(m, n) || n == k
    ensures Lookup(m + [(k, v)], n) == if n == k then Some(v) else Lookup(m, n)
  {
    var r := m + [(k, v)];
    assert forall i :: 0 <= i < |m| ==> r[i] == m[i];
    assert forall i :: 0 <= i < |m| ==> m[i].0 != k by {
      forall i | 0 <= i < |m| ensures m[i].0 != k {
        assert r[i].0 != r[|m|].0;
      }
    }
    assert Keys(r) == Keys(m) + [k];
    if n == k {
      GetAt(r, |m|);
    } else if HasKey(m, n) {
      var i := IndexOfKey(m, n);
      assert IndexOfKey(r, n) == i;
    }
  }
}
