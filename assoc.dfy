/** A JavaScript plain object used as a dictionary: its string keys are kept
    in the order they were first assigned, assigning to an existing key keeps
    its place, assigning to a new key appends it, and `delete` removes the key.
    The calculator's `groupedData` and `ueGroups` are such objects, and their
    key order decides which configured UE a module joins first. JavaScript
    would list keys that look like array indices ("3", "12") first, in numeric
    order; the model assumes no UE name or designation has that form. */
module Assoc {
  import opened Wrappers

  type Dict<K, V> = seq<(K, V)>

  function Keys<K, V>(d: Dict<K, V>): (ks: seq<K>)
    ensures |ks| == |d|
    ensures forall i | 0 <= i < |d| :: ks[i] == d[i].0
  {
    if d == [] then [] else [d[0].0] + Keys(d[1..])
  }

  function Values<K, V>(d: Dict<K, V>): (vs: seq<V>)
    ensures |vs| == |d|
    ensures forall i | 0 <= i < |d| :: vs[i] == d[i].1
  {
    seq(|d|, i requires 0 <= i < |d| => d[i].1)
  }

  /** Every key occurs once, as in a JavaScript object. */
  predicate DistinctKeys<K(==), V>(d: Dict<K, V>)
  {
    forall i, j | 0 <= i < j < |d| :: d[i].0 != d[j].0
  }

  /** `obj[k]`: the value stored under `k`, if any. */
  function Lookup<K(==, !new), V>(d: Dict<K, V>, k: K): (r: Option<V>)
    ensures r.Some? <==> k in Keys(d)
  {
    if d == [] then None
    else if d[0].0 == k then Some(d[0].1)
    else
      Lookup(d[1..], k)
  }

  /** `obj[k] = v`: replaces the value of an existing key in place, or appends
      a new key at the end. */
  function Set<K(==, !new), V>(d: Dict<K, V>, k: K, v: V): (r: Dict<K, V>)
    ensures Lookup(r, k) == Some(v)
    ensures forall k' | k' != k :: Lookup(r, k') == Lookup(d, k')
    ensures k in Keys(d) ==> Keys(r) == Keys(d)
    ensures k !in Keys(d) ==> Keys(r) == Keys(d) + [k]
  {
    if d == [] then [(k, v)]
    else if d[0].0 == k then
      var r := [(k, v)] + d[1..];
      assert r[1..] == d[1..];
      r
    else
      var rest := Set(d[1..], k, v);
      var r := [d[0]] + rest;
      assert r[1..] == rest;
      r
  }

  /** `delete obj[k]`: the other keys keep their values (and, by
      `DeleteKeepsOrder` and `KeysDelete`, their order). */
  function Delete<K(==, !new), V>(d: Dict<K, V>, k: K): (r: Dict<K, V>)
    ensures Lookup(r, k) == None
    ensures forall k' | k' != k :: Lookup(r, k') == Lookup(d, k')
    ensures k !in Keys(d) ==> r == d
    ensures |r| <= |d|
    ensures forall k' | k' in Keys(r) :: k' in Keys(d)
  {
    if d == [] then []
    else if d[0].0 == k then Delete(d[1..], k)
    else
      var rest := Delete(d[1..], k);
      var r := [d[0]] + rest;
      assert r[1..] == rest;
      r
  }

  /** A key sequence without one key, the others in order. */
  function Without<K(==, !new)>(ks: seq<K>, k: K): (r: seq<K>)
    ensures forall x :: x in r <==> x in ks && x != k
  {
    if ks == [] then []
    else if ks[0] == k then Without(ks[1..], k)
    else [ks[0]] + Without(ks[1..], k)
  }

  /** Removing a key other than the last one of a sequence keeps that last one last. */
  lemma {:induction false} WithoutAppend<K(!new)>(ks: seq<K>, x: K, k: K)
    requires x != k
    ensures Without(ks + [x], k) == Without(ks, k) + [x]
  {
    if ks == [] {
      assert [] + [x] == [x];
    } else {
      assert (ks + [x])[0] == ks[0] && (ks + [x])[1..] == ks[1..] + [x];
      WithoutAppend(ks[1..], x, k);
    }
  }

  /** Removing a key from a concatenation removes it from each part. */
  lemma {:induction false} WithoutConcat<K(!new)>(xs: seq<K>, ys: seq<K>, k: K)
    ensures Without(xs + ys, k) == Without(xs, k) + Without(ys, k)
  {
    if xs == [] {
      assert xs + ys == ys;
    } else {
      assert (xs + ys)[0] == xs[0] && (xs + ys)[1..] == xs[1..] + ys;
      WithoutConcat(xs[1..], ys, k);
    }
  }

  /** Storing under two new keys and then deleting a third: the old keys
      without the third, in order, then the two new keys. */
  lemma SetTwoThenDeleteKeys<K(!new), V>(d: Dict<K, V>, k1: K, v1: V, k2: K, v2: V, x: K)
    requires k1 != k2 && k1 != x && k2 != x && k1 !in Keys(d) && k2 !in Keys(d)
    ensures Keys(Delete(Set(Set(d, k1, v1), k2, v2), x)) == Without(Keys(d), x) + [k1, k2]
  {
    var first := Set(d, k1, v1);
    var second := Set(first, k2, v2);
    assert k2 !in Keys(first) by {
      assert Keys(first) == Keys(d) + [k1];
    }
    assert Keys(second) == (Keys(d) + [k1]) + [k2];
    KeysDelete(second, x);
    WithoutTwoAppended(Keys(d), k1, k2, x);
  }

  /** Removing a key other than the two appended ones keeps them last, in order. */
  lemma WithoutTwoAppended<K(!new)>(ks: seq<K>, k1: K, k2: K, x: K)
    requires k1 != x && k2 != x
    ensures Without((ks + [k1]) + [k2], x) == Without(ks, x) + [k1, k2]
  {
    WithoutAppend(ks + [k1], k2, x);
    WithoutAppend(ks, k1, x);
  }

  /** Removing a key from a sequence to which only that key was appended. */
  lemma WithoutAppended<K(!new)>(ks: seq<K>, tail: seq<K>, x: K)
    requires tail == [] || tail == [x]
    ensures Without(ks + tail, x) == Without(ks, x)
  {
    WithoutConcat(ks, tail, x);
    if tail != [] {
      assert tail[1..] == [];
    }
  }

  /** After `delete`, the keys are the old keys without the deleted one, in
      their old order. */
  lemma {:induction false} KeysDelete<K(!new), V>(d: Dict<K, V>, k: K)
    ensures Keys(Delete(d, k)) == Without(Keys(d), k)
  {
    if d != [] {
      KeysDelete(d[1..], k);
      assert Keys(d) == [d[0].0] + Keys(d[1..]);
      if d[0].0 != k {
        var rest := Delete(d[1..], k);
        assert Delete(d, k) == [d[0]] + rest;
        assert Keys([d[0]] + rest) == [d[0].0] + Keys(rest);
      }
    }
  }

  /** `delete` works entry by entry: deleting from a concatenation deletes
      from each part. */
  lemma {:induction false} DeleteConcat<K(!new), V>(a: Dict<K, V>, b: Dict<K, V>, k: K)
    ensures Delete(a + b, k) == Delete(a, k) + Delete(b, k)
  {
    if a == [] {
      assert a + b == b;
    } else {
      assert (a + b)[0] == a[0] && (a + b)[1..] == a[1..] + b;
      DeleteConcat(a[1..], b, k);
    }
  }

  /** Deleting a key found at one position only removes that entry. */
  lemma DeleteOnlyAt<K(!new), V>(d: Dict<K, V>, k: K, i: nat)
    requires i < |d| && d[i].0 == k && k !in Keys(d[..i]) && k !in Keys(d[i + 1..])
    ensures Delete(d, k) == d[..i] + d[i + 1..]
  {
    SplitAround(d, i);
    DeleteMiddle(d[..i], d[i], d[i + 1..], k);
  }

  /** Deleting the key of the one entry that carries it. */
  lemma DeleteMiddle<K(!new), V>(pre: Dict<K, V>, e: (K, V), post: Dict<K, V>, k: K)
    requires e.0 == k && k !in Keys(pre) && k !in Keys(post)
    ensures Delete(pre + [e] + post, k) == pre + post
  {
    assert Delete([e], k) == [] by {
      assert [e][1..] == [];
    }
    DeleteConcat(pre, [e], k);
    assert Delete(pre + [e], k) == pre;
    DeleteConcat(pre + [e], post, k);
  }

  /** A sequence is what comes before a position, the element there, and
      what comes after. */
  lemma SplitAround<T>(s: seq<T>, i: nat)
    requires i < |s|
    ensures s == s[..i] + [s[i]] + s[i + 1..]
  {
  }

  /** With distinct keys, deleting a present key removes exactly its entry
      and leaves the entries before and after it in order. */
  lemma DeleteKeepsOrder<K(!new), V>(d: Dict<K, V>, k: K)
    requires DistinctKeys(d) && k in Keys(d)
    ensures exists i | 0 <= i < |d| :: d[i].0 == k && Delete(d, k) == d[..i] + d[i + 1..]
  {
    var i :| 0 <= i < |d| && Keys(d)[i] == k;
    KeyNotBefore(d, i);
    KeyNotAfter(d, i);
    DeleteOnlyAt(d, k, i);
  }

  lemma KeyNotBefore<K(!new), V>(d: Dict<K, V>, i: nat)
    requires DistinctKeys(d) && i < |d|
    ensures d[i].0 !in Keys(d[..i])
  {
    var pre := d[..i];
    forall j | 0 <= j < |pre| ensures Keys(pre)[j] != d[i].0 {
      assert pre[j] == d[j];
    }
  }

  lemma KeyNotAfter<K(!new), V>(d: Dict<K, V>, i: nat)
    requires DistinctKeys(d) && i < |d|
    ensures d[i].0 !in Keys(d[i + 1..])
  {
    var post := d[i + 1..];
    forall j | 0 <= j < |post| ensures Keys(post)[j] != d[i].0 {
      assert post[j] == d[i + 1 + j];
    }
  }

  /** The key order left by storing under one key and deleting two others:
      the old keys without the two, in order, with the stored key at its old
      place or, if it is new, at the end. */
  lemma SetThenDeleteTwoKeys<K(!new), V>(d: Dict<K, V>, k: K, v: V, a: K, b: K)
    requires k != a && k != b
    ensures Keys(Delete(Delete(Set(d, k, v), a), b))
      == Without(Without(Keys(d), a), b) + (if k in Keys(d) then [] else [k])
  {
    var s := Set(d, k, v);
    KeysDelete(s, a);
    KeysDelete(Delete(s, a), b);
    if k !in Keys(d) {
      WithoutAppend(Keys(d), k, a);
      WithoutAppend(Without(Keys(d), a), k, b);
    }
  }

  /** Storing under one key and then deleting two others: only the stored key
      of the three remains, and every other key keeps its value. */
  lemma SetThenDeleteTwo<K(!new), V>(d: Dict<K, V>, k: K, v: V, a: K, b: K)
    requires k != a && k != b
    ensures var r := Delete(Delete(Set(d, k, v), a), b);
      && Lookup(r, a) == None && Lookup(r, b) == None && Lookup(r, k) == Some(v)
      && forall k' | k' != a && k' != b && k' != k :: Lookup(r, k') == Lookup(d, k')
  {
  }

  /** Every entry left by `delete` is an entry of the original under another key. */
  lemma {:induction false} DeleteEntry<K(!new), V>(d: Dict<K, V>, k: K, i: nat)
    requires i < |Delete(d, k)|
    ensures Delete(d, k)[i] in d && Delete(d, k)[i].0 != k
  {
    if d[0].0 == k {
      DeleteEntry(d[1..], k, i);
    } else if i > 0 {
      DeleteEntry(d[1..], k, i - 1);
    }
  }

  /** With distinct keys, a stored pair is found by its key. */
  lemma LookupAt<K(!new), V>(d: Dict<K, V>, i: nat)
    requires DistinctKeys(d) && i < |d|
    ensures Lookup(d, d[i].0) == Some(d[i].1)
  {
    if i > 0 {
      assert d[0].0 != d[i].0;
      LookupAt(d[1..], i - 1);
    }
  }

  /** `Object.values` lists, position by position, the value that the key
      at the same position of `Object.keys` looks up. */
  lemma ValuesLookup<K(!new), V>(d: Dict<K, V>)
    requires DistinctKeys(d)
    ensures |Values(d)| == |Keys(d)|
    ensures forall i | 0 <= i < |d| :: Lookup(d, Keys(d)[i]) == Some(Values(d)[i])
  {
    forall i | 0 <= i < |d| ensures Lookup(d, Keys(d)[i]) == Some(Values(d)[i]) {
      LookupAt(d, i);
    }
  }

  lemma SetDistinct<K(!new), V>(d: Dict<K, V>, k: K, v: V)
    requires DistinctKeys(d)
    ensures DistinctKeys(Set(d, k, v))
  {
    var r, ks := Set(d, k, v), Keys(d);
    var rs := Keys(r);
    forall i, j | 0 <= i < j < |r| ensures r[i].0 != r[j].0 {
      assert rs[i] == r[i].0 && rs[j] == r[j].0;
      if j < |d| {
        assert rs[i] == ks[i] && rs[j] == ks[j];
      } else {
        assert k !in ks && rs == ks + [k];
        assert rs[i] == ks[i] && rs[j] == k;
      }
    }
  }

  lemma {:induction false} DeleteDistinct<K(!new), V>(d: Dict<K, V>, k: K)
    requires DistinctKeys(d)
    ensures DistinctKeys(Delete(d, k))
  {
    if d != [] {
      DeleteDistinct(d[1..], k);
      if d[0].0 != k {
        var rest := Delete(d[1..], k);
        assert d[0].0 !in Keys(d[1..]);
        forall j | 0 <= j < |rest| ensures rest[j].0 != d[0].0 {
          assert Keys(rest)[j] == rest[j].0;
        }
      }
    }
  }
}
