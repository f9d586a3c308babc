/** An insertion-ordered hash, as Ruby's `Hash` behaves: keys are unique,
    `store` on a present key replaces its value in place, `store` on a new key
    appends, and `delete` removes an entry without disturbing the others. */
module OrderedMap {
  import opened Wrappers

  type Entries<K, V> = seq<(K, V)>

  /** The keys in insertion order (Ruby `Hash#keys`). */
  function Keys<K, V>(a: Entries<K, V>): (ks: seq<K>)
    ensures |ks| == |a|
    ensures forall i {:trigger ks[i]} :: 0 <= i < |a| ==> ks[i] == a[i].0
  {
    if a == [] then [] else [a[0].0] + Keys(a[1..])
  }

  /** The values in insertion order (Ruby `Hash#values`). */
  function Values<K, V>(a: Entries<K, V>): (vs: seq<V>)
    ensures |vs| == |a|
    ensures forall i {:trigger vs[i]} :: 0 <= i < |a| ==> vs[i] == a[i].1
  {
    if a == [] then [] else [a[0].1] + Values(a[1..])
  }

  /** No key occurs twice: the invariant every Ruby hash keeps. */
  ghost predicate UniqueKeys<K, V>(a: Entries<K, V>) {
    forall i, j :: 0 <= i < j < |a| ==> a[i].0 != a[j].0
  }

  /** Lookup of `k` (Ruby `Hash#fetch` without its exception). */
  function Get<K(==,!new), V(!new)>(a: Entries<K, V>, k: K): (r: Option<V>)
    ensures r.Some? <==> k in Keys(a)
    ensures r.Some? ==> (k, r.value) in a
  {
    if a == [] then None
    else if a[0].0 == k then Some(a[0].1)
    else Get(a[1..], k)
  }

  /** The last inserted key, or nil when the hash is empty (Ruby `keys.last`). */
  function LastKey<K, V>(a: Entries<K, V>): (r: Option<K>)
    ensures r.None? <==> a == []
    ensures r.Some? ==> Keys(a)[|a| - 1] == r.value
  {
    if a == [] then None
    else
      assert Keys(a)[|a| - 1] == a[|a| - 1].0;
      Some(a[|a| - 1].0)
  }

  /** Ruby `Hash#store`: `k` maps to `v` afterwards and every other key keeps
      its value (positions: see StoreKeys). */
  function Store<K(==,!new), V(!new)>(a: Entries<K, V>, k: K, v: V): (r: Entries<K, V>)
    ensures Get(r, k) == Some(v)
    ensures forall j :: j != k ==> Get(r, j) == Get(a, j)
  {
    if a == [] then [(k, v)]
    else if a[0].0 == k then
      var r := [(k, v)] + a[1..];
      assert r[1..] == a[1..];
      r
    else
      var rest := Store(a[1..], k, v);
      var r := [a[0]] + rest;
      assert r[1..] == rest;
      r
  }

  /** Ruby `Hash#delete`: no entry for `k` remains, every other key keeps its
      value, and the remaining entries keep their relative order. */
  function Delete<K(==,!new), V(!new)>(a: Entries<K, V>, k: K): (r: Entries<K, V>)
    ensures Get(r, k) == None
    ensures forall j :: j != k ==> Get(r, j) == Get(a, j)
    ensures |r| <= |a|
  {
    if a == [] then []
    else
      var rest := Delete(a[1..], k);
      assert a == [a[0]] + a[1..];
      if a[0].0 == k then rest
      else
        var r := [a[0]] + rest;
        assert r[1..] == rest;
        r
  }

  /** A key already present keeps its position and a new key goes last. */
  lemma {:induction false} StoreKeys<K(!new), V(!new)>(a: Entries<K, V>, k: K, v: V)
    ensures k in Keys(a) ==> Keys(Store(a, k, v)) == Keys(a)
    ensures k !in Keys(a) ==> Keys(Store(a, k, v)) == Keys(a) + [k]
  {
    if a == [] {
      assert Store(a, k, v) == [(k, v)];
    } else if a[0].0 == k {
      StoreKeysAtHead(a, k, v);
    } else {
      StoreKeys(a[1..], k, v);
      StoreKeysPastHead(a, k, v);
    }
  }

  /** Storing under the first key replaces the first entry in place. */
  lemma StoreKeysAtHead<K(!new), V(!new)>(a: Entries<K, V>, k: K, v: V)
    requires a != [] && a[0].0 == k
    ensures k in Keys(a) && Keys(Store(a, k, v)) == Keys(a)
  {
    var tail := a[1..];
    assert a == [a[0]] + tail;
    KeysCons(a[0], tail);
    assert Store(a, k, v) == [(k, v)] + tail;
    KeysCons((k, v), tail);
  }

  /** Storing under a later key keeps the first entry in front of what the
      store does to the rest. */
  lemma StoreKeysPastHead<K(!new), V(!new)>(a: Entries<K, V>, k: K, v: V)
    requires a != [] && a[0].0 != k
    requires k in Keys(a[1..]) ==> Keys(Store(a[1..], k, v)) == Keys(a[1..])
    requires k !in Keys(a[1..]) ==> Keys(Store(a[1..], k, v)) == Keys(a[1..]) + [k]
    ensures k in Keys(a) ==> Keys(Store(a, k, v)) == Keys(a)
    ensures k !in Keys(a) ==> Keys(Store(a, k, v)) == Keys(a) + [k]
  {
    var tail := a[1..];
    var rest := Store(tail, k, v);
    var head := [a[0].0];
    assert Keys(a) == head + Keys(tail);
    assert Keys(Store(a, k, v)) == head + Keys(rest) by {
      assert Store(a, k, v) == [a[0]] + rest;
      KeysCons(a[0], rest);
    }
    assert k in Keys(a) <==> k in Keys(tail) by {
      assert k !in head;
    }
    if k !in Keys(tail) {
      ConcatAssoc(head, Keys(tail), [k]);
    }
  }

  /** Concatenation is associative. */
  lemma ConcatAssoc<T>(a: seq<T>, b: seq<T>, c: seq<T>)
    ensures a + (b + c) == a + b + c
  {
  }

  /** The keys of an entry followed by more entries. */
  lemma KeysCons<K, V>(x: (K, V), a: Entries<K, V>)
    ensures Keys([x] + a) == [x.0] + Keys(a)
  {
    assert ([x] + a)[1..] == a;
  }

  /** Storing never duplicates a key. */
  lemma StoreUnique<K(!new), V(!new)>(a: Entries<K, V>, k: K, v: V)
    requires UniqueKeys(a)
    ensures UniqueKeys(Store(a, k, v))
  {
    StoreKeys(a, k, v);
    var r := Store(a, k, v);
    forall i, j | 0 <= i < j < |r| ensures r[i].0 != r[j].0 {
      assert Keys(r)[i] == r[i].0 && Keys(r)[j] == r[j].0;
      if k !in Keys(a) && j == |a| {
        assert Keys(r)[i] == Keys(a)[i];
      } else {
        assert Keys(r)[i] == Keys(a)[i] && Keys(r)[j] == Keys(a)[j];
      }
    }
  }

  /** In a hash with unique keys every entry is found by its own key. */
  lemma {:induction false} GetEntry<K(!new), V(!new)>(a: Entries<K, V>, i: nat)
    requires UniqueKeys(a) && i < |a|
    ensures Get(a, a[i].0) == Some(a[i].1)
  {
    if i > 0 {
      assert a[1..][i - 1] == a[i];
      GetEntry(a[1..], i - 1);
    }
  }

  /** Deleting an absent key changes nothing. */
  lemma {:induction false} DeleteAbsent<K(!new), V(!new)>(a: Entries<K, V>, k: K)
    requires k !in Keys(a)
    ensures Delete(a, k) == a
  {
    if a != [] {
      DeleteAbsent(a[1..], k);
      assert a == [a[0]] + a[1..];
    }
  }

  /** Dropping the first entry keeps keys unique, and the first key does not
      occur again. */
  lemma TailUnique<K(!new), V(!new)>(a: Entries<K, V>)
    requires UniqueKeys(a) && a != []
    ensures UniqueKeys(a[1..])
    ensures a[0].0 !in Keys(a[1..])
  {
    var tail := a[1..];
    forall x, y | 0 <= x < y < |tail| ensures tail[x].0 != tail[y].0 {
      assert tail[x] == a[x + 1] && tail[y] == a[y + 1];
    }
  }

  /** Deleting never duplicates a key. */
  lemma {:induction false} DeleteUnique<K(!new), V(!new)>(a: Entries<K, V>, k: K)
    requires UniqueKeys(a)
    ensures UniqueKeys(Delete(a, k))
  {
    if a != [] {
      TailUnique(a);
      DeleteUnique(a[1..], k);
      var rest := Delete(a[1..], k);
      if a[0].0 != k {
        assert a[0].0 !in Keys(rest) by {
          assert Get(rest, a[0].0) == Get(a[1..], a[0].0);
        }
        var r := [a[0]] + rest;
        forall x, y | 0 <= x < y < |r| ensures r[x].0 != r[y].0 {
          assert r[y] == rest[y - 1];
          if x == 0 {
            assert Keys(rest)[y - 1] == rest[y - 1].0;
          } else {
            assert r[x] == rest[x - 1];
          }
        }
      }
    }
  }

  /** Deleting from a concatenation deletes from both parts. */
  lemma {:induction false} DeleteConcat<K(!new), V(!new)>(a: Entries<K, V>, b: Entries<K, V>, k: K)
    ensures Delete(a + b, k) == Delete(a, k) + Delete(b, k)
  {
    if a != [] {
      assert (a + b)[0] == a[0] && (a + b)[1..] == a[1..] + b;
      DeleteConcat(a[1..], b, k);
      if a[0].0 != k {
        var x, y, z := [a[0]], Delete(a[1..], k), Delete(b, k);
        assert Delete(a + b, k) == x + (y + z);
        assert Delete(a, k) == x + y;
        assert x + (y + z) == (x + y) + z;
      }
    } else {
      assert a + b == b;
    }
  }

  /** In a hash with unique keys, deleting the key of an entry removes
      exactly that entry and leaves the others in their order. */
  lemma DeleteEntry<K(!new), V(!new)>(pre: Entries<K, V>, x: (K, V), post: Entries<K, V>)
    requires UniqueKeys(pre + [x] + post)
    ensures Delete(pre + [x] + post, x.0) == pre + post
  {
    var a := pre + [x] + post;
    assert a == pre + ([x] + post);
    assert a[|pre|] == x;
    forall j | 0 <= j < |pre| ensures Keys(pre)[j] != x.0 {
      assert a[j] == pre[j];
    }
    forall j | 0 <= j < |post| ensures Keys(post)[j] != x.0 {
      assert a[|pre| + 1 + j] == post[j];
    }
    DeleteAbsent(pre, x.0);
    DeleteAbsent(post, x.0);
    DeleteMiddle(pre, x, post);
  }

  /** Deleting a key that occurs only in the middle entry removes just that
      entry. */
  lemma DeleteMiddle<K(!new), V(!new)>(pre: Entries<K, V>, x: (K, V), post: Entries<K, V>)
    requires Delete(pre, x.0) == pre && Delete(post, x.0) == post
    ensures Delete(pre + ([x] + post), x.0) == pre + post
  {
    DeleteConcat(pre, [x] + post, x.0);
    DeleteConcat([x], post, x.0);
    assert Delete([x], x.0) == [];
  }

  /** Storing a new key and deleting it again gives back the original hash. */
  lemma {:induction false} DeleteUndoesStore<K(!new), V(!new)>(a: Entries<K, V>, k: K, v: V)
    requires k !in Keys(a)
    ensures Delete(Store(a, k, v), k) == a
  {
    if a != [] {
      DeleteUndoesStore(a[1..], k, v);
      assert a == [a[0]] + a[1..];
    }
  }
}
