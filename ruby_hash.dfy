/** Ruby's `Hash` as the model sees it: an insertion-ordered list of entries
    with distinct keys. `h[k] = v` replaces the value of an existing key in
    place (the key keeps its position) and appends a new key at the end;
    `a.merge(b)` stores every entry of `b`, in `b`'s order, into a copy of `a`. */
module RubyHash {
  import opened Wrappers

  type Entries<K, V> = seq<(K, V)>

  /** The keys in iteration order. */
  function Keys<K(==,!new), V>(h: Entries<K, V>): (ks: seq<K>)
    ensures |ks| == |h|
    ensures forall i :: 0 <= i < |h| ==> ks[i] == h[i].0
  {
    if h == [] then [] else [h[0].0] + Keys(h[1..])
  }

  /** The invariant of every Ruby hash: no key occurs twice. */
  ghost predicate UniqueKeys<K(!new), V>(h: Entries<K, V>)
  {
    forall i, j :: 0 <= i < j < |h| ==> h[i].0 != h[j].0
  }

  /** `h[k]`, with a missing key reported as `None`. */
  function Lookup<K(==,!new), V>(h: Entries<K, V>, k: K): (r: Option<V>)
    ensures r.Some? <==> k in Keys(h)
    ensures r.Some? ==> (k, r.value) in h
  {
    if h == [] then None
    else if h[0].0 == k then Some(h[0].1)
    else Lookup(h[1..], k)
  }

  /** In a hash with distinct keys, looking up the key of an entry finds that entry's value. */
  lemma {:induction false} LookupEntry<K(!new), V>(h: Entries<K, V>, i: nat)
    requires UniqueKeys(h)
    requires i < |h|
    ensures Lookup(h, h[i].0) == Some(h[i].1)
  {
    if i > 0 {
      assert h[0].0 != h[i].0;
      assert h[1..][i - 1] == h[i];
      LookupEntry(h[1..], i - 1);
    }
  }

  /** `h[k] = v`. */
  function Store<K(==,!new), V>(h: Entries<K, V>, k: K, v: V): (r: Entries<K, V>)
    ensures Lookup(r, k) == Some(v)
    ensures forall k' :: k' != k ==> Lookup(r, k') == Lookup(h, k')
  {
    if h == [] then [(k, v)]
    else if h[0].0 == k then [(k, v)] + h[1..]
    else
      var rest := Store(h[1..], k, v);
      assert ([h[0]] + rest)[1..] == rest;
      [h[0]] + rest
  }

  /** Storing keeps the position of an existing key and appends a new one. */
  lemma {:induction false} StoreKeys<K(!new), V>(h: Entries<K, V>, k: K, v: V)
    ensures Keys(Store(h, k, v)) == if k in Keys(h) then Keys(h) else Keys(h) + [k]
  {
    var r := Store(h, k, v);
    if h == [] {
      assert r == [(k, v)];
      assert Keys(r) == [k] + Keys(r[1..]);
    } else if h[0].0 == k {
      assert r[1..] == h[1..];
      assert Keys(r) == [k] + Keys(h[1..]) == Keys(h);
    } else {
      var rest := Store(h[1..], k, v);
      assert r == [h[0]] + rest;
      assert r[1..] == rest;
      StoreKeys(h[1..], k, v);
      assert Keys(h) == [h[0].0] + Keys(h[1..]);
      assert Keys(r) == [h[0].0] + Keys(rest);
      assert k in Keys(h) <==> k in Keys(h[1..]);
      if k !in Keys(h) {
        assert Keys(r) == [h[0].0] + (Keys(h[1..]) + [k]);
        assert [h[0].0] + (Keys(h[1..]) + [k]) == ([h[0].0] + Keys(h[1..])) + [k];
      }
    }
  }

  /** Storing keeps the hash invariant. */
  lemma StoreUnique<K(!new), V>(h: Entries<K, V>, k: K, v: V)
    requires UniqueKeys(h)
    ensures UniqueKeys(Store(h, k, v))
  {
    var r := Store(h, k, v);
    StoreKeys(h, k, v);
    forall i, j | 0 <= i < j < |r| ensures r[i].0 != r[j].0 {
      assert Keys(r)[i] == r[i].0 && Keys(r)[j] == r[j].0;
      if j < |h| {
        assert Keys(h)[i] == h[i].0 && Keys(h)[j] == h[j].0;
      } else {
        assert k !in Keys(h);
        assert Keys(h)[i] == h[i].0;
      }
    }
  }

  /** The keys of `ks`, in order, that do not occur in `excluded`. */
  function KeysNotIn<K(==)>(ks: seq<K>, excluded: seq<K>): (r: seq<K>)
    ensures |r| <= |ks|
  {
    if ks == [] then []
    else if ks[0] in excluded then KeysNotIn(ks[1..], excluded)
    else [ks[0]] + KeysNotIn(ks[1..], excluded)
  }

  /** `h.merge(other)`. */
  function Merge<K(==,!new), V>(h: Entries<K, V>, other: Entries<K, V>): (r: Entries<K, V>)
    decreases |other|
  {
    if other == [] then h
    else Merge(Store(h, other[0].0, other[0].1), other[1..])
  }

  /** Merge precedence: a key of `other` takes `other`'s value; every other key keeps `h`'s. */
  lemma {:induction false} MergeLookup<K(!new), V>(h: Entries<K, V>, other: Entries<K, V>, k: K)
    requires UniqueKeys(other)
    ensures Lookup(Merge(h, other), k) == if k in Keys(other) then Lookup(other, k) else Lookup(h, k)
    decreases |other|
  {
    if other != [] {
      var h' := Store(h, other[0].0, other[0].1);
      assert Keys(other) == [other[0].0] + Keys(other[1..]);
      MergeLookup(h', other[1..], k);
      if k == other[0].0 {
        assert k !in Keys(other[1..]) by {
          forall i | 0 <= i < |other[1..]| ensures Keys(other[1..])[i] != k {
            assert other[1..][i] == other[i + 1];
          }
        }
      }
    }
  }

  /** Merge order: the receiver's keys stay where they were (even when `other`
      overrides their value), followed by `other`'s new keys in `other`'s order. */
  lemma {:induction false} MergeKeys<K(!new), V>(h: Entries<K, V>, other: Entries<K, V>)
    requires UniqueKeys(other)
    ensures Keys(Merge(h, other)) == Keys(h) + KeysNotIn(Keys(other), Keys(h))
    decreases |other|
  {
    if other == [] {
      assert Keys(h) + [] == Keys(h);
    } else {
      var k := other[0].0;
      var h' := Store(h, k, other[0].1);
      var rest := Keys(other[1..]);
      assert Keys(other) == [k] + rest;
      HeadNotInTail(other);
      UniqueTail(other);
      MergeKeys(h', other[1..]);
      StoreKeys(h, k, other[0].1);
      KeysNotInAfterStore(Keys(h), k, rest);
    }
  }

  /** The key-order bookkeeping of one merge step. */
  lemma KeysNotInAfterStore<K>(hk: seq<K>, k: K, rest: seq<K>)
    requires k !in rest
    ensures var hk' := if k in hk then hk else hk + [k];
            hk' + KeysNotIn(rest, hk') == hk + KeysNotIn([k] + rest, hk)
  {
    assert ([k] + rest)[1..] == rest;
    if k !in hk {
      KeysNotInExtended(rest, hk, k);
      assert (hk + [k]) + KeysNotIn(rest, hk) == hk + ([k] + KeysNotIn(rest, hk));
    }
  }

  /** The first key of a hash does not occur among the others. */
  lemma HeadNotInTail<K(!new), V>(h: Entries<K, V>)
    requires UniqueKeys(h) && h != []
    ensures h[0].0 !in Keys(h[1..])
  {
    forall i | 0 <= i < |h| - 1 ensures Keys(h[1..])[i] != h[0].0 {
      assert h[1..][i] == h[i + 1];
    }
  }

  /** Dropping the first entry keeps the hash invariant. */
  lemma UniqueTail<K(!new), V>(h: Entries<K, V>)
    requires UniqueKeys(h) && h != []
    ensures UniqueKeys(h[1..])
  {
    forall i, j | 0 <= i < j < |h| - 1 ensures h[1..][i].0 != h[1..][j].0 {
      assert h[1..][i] == h[i + 1] && h[1..][j] == h[j + 1];
    }
  }

  /** Excluding a key that does not occur changes nothing. */
  lemma {:induction false} KeysNotInExtended<K>(ks: seq<K>, excluded: seq<K>, k: K)
    requires k !in ks
    ensures KeysNotIn(ks, excluded + [k]) == KeysNotIn(ks, excluded)
  {
    if ks != [] {
      KeysNotInExtended(ks[1..], excluded, k);
    }
  }

  /** Merging keeps the hash invariant. */
  lemma {:induction false} MergeUnique<K(!new), V>(h: Entries<K, V>, other: Entries<K, V>)
    requires UniqueKeys(h)
    ensures UniqueKeys(Merge(h, other))
    decreases |other|
  {
    if other != [] {
      StoreUnique(h, other[0].0, other[0].1);
      MergeUnique(Store(h, other[0].0, other[0].1), other[1..]);
    }
  }
}
