/** A Python dictionary of lists filled by `d.setdefault(k, []).append(v)`:
    the keys in insertion order together with the list stored under each. */
module Buckets {
  import Seqs
  import opened Outcomes

  datatype Buckets<K, V> = Buckets(keys: seq<K>, lists: map<K, seq<V>>)

  /** Keys are distinct and are exactly the keys of the map. */
  ghost predicate Valid<K(!new), V>(b: Buckets<K, V>) {
    && Seqs.Distinct(b.keys)
    && (forall k :: k in b.lists <==> k in b.keys)
  }

  function Empty<K(!new), V>(): (b: Buckets<K, V>)
    ensures Valid(b)
  {
    Buckets([], map[])
  }

  /** `d.get(k, [])`. */
  function Get<K(!new), V>(b: Buckets<K, V>, k: K): seq<V> {
    if k in b.lists then b.lists[k] else []
  }

  /** `d.setdefault(k, []).append(v)`. */
  function Append<K(!new), V>(b: Buckets<K, V>, k: K, v: V): (r: Buckets<K, V>)
    requires Valid(b)
    ensures Valid(r)
    ensures Get(r, k) == Get(b, k) + [v]
    ensures r.keys == if k in b.lists then b.keys else b.keys + [k]
  {
    if k in b.lists then Buckets(b.keys, b.lists[k := b.lists[k] + [v]])
    else Buckets(b.keys + [k], b.lists[k := [v]])
  }

  /** Appending under one key leaves every other key's list as it was. */
  lemma GetAppendOther<K(!new), V>(b: Buckets<K, V>, k: K, v: V, other: K)
    requires Valid(b) && other != k
    ensures Get(Append(b, k, v), other) == Get(b, other)
  {
  }

  /** The concatenation of the lists in key order, as iterating `d.items()` sees them. */
  function Flatten<K(!new), V>(keys: seq<K>, lists: map<K, seq<V>>): seq<V> {
    if keys == [] then []
    else (if keys[0] in lists then lists[keys[0]] else []) + Flatten(keys[1..], lists)
  }

  function Values<K(!new), V>(b: Buckets<K, V>): seq<V> {
    Flatten(b.keys, b.lists)
  }

  lemma {:induction false} FlattenSnoc<K(!new), V>(keys: seq<K>, k: K, lists: map<K, seq<V>>)
    ensures Flatten(keys + [k], lists) == Flatten(keys, lists) + (if k in lists then lists[k] else [])
  {
    if keys == [] {
      assert keys + [k] == [k];
    } else {
      assert (keys + [k])[1..] == keys[1..] + [k];
      FlattenSnoc(keys[1..], k, lists);
    }
  }

  lemma {:induction false} FlattenOther<K(!new), V>(keys: seq<K>, k: K, lists: map<K, seq<V>>, xs: seq<V>)
    requires k !in keys
    ensures Flatten(keys, lists[k := xs]) == Flatten(keys, lists)
  {
    if keys != [] {
      FlattenOther(keys[1..], k, lists, xs);
    }
  }

  lemma {:induction false} FlattenGrow<K(!new), V>(keys: seq<K>, k: K, lists: map<K, seq<V>>, v: V)
    requires Seqs.Distinct(keys) && k in keys && k in lists
    ensures multiset(Flatten(keys, lists[k := lists[k] + [v]])) == multiset(Flatten(keys, lists)) + multiset{v}
  {
    var lists' := lists[k := lists[k] + [v]];
    if keys[0] == k {
      assert k !in keys[1..] by {
        forall i | 0 <= i < |keys[1..]| ensures keys[1..][i] != k {
          assert keys[1..][i] == keys[i + 1];
        }
      }
      FlattenOther(keys[1..], k, lists, lists[k] + [v]);
    } else {
      assert k in keys[1..] by {
        var i :| 0 <= i < |keys| && keys[i] == k;
        assert keys[1..][i - 1] == k;
      }
      assert Seqs.Distinct(keys[1..]) by {
        forall i, j | 0 <= i < j < |keys[1..]| ensures keys[1..][i] != keys[1..][j] {
          assert keys[1..][i] == keys[i + 1] && keys[1..][j] == keys[j + 1];
        }
      }
      FlattenGrow(keys[1..], k, lists, v);
    }
  }

  /** Appending one value adds exactly that value to the flattened contents. */
  lemma AppendValues<K(!new), V>(b: Buckets<K, V>, k: K, v: V)
    requires Valid(b)
    ensures multiset(Values(Append(b, k, v))) == multiset(Values(b)) + multiset{v}
  {
    if k in b.lists {
      FlattenGrow(b.keys, k, b.lists, v);
    } else {
      FlattenSnoc(b.keys, k, b.lists[k := [v]]);
      FlattenOther(b.keys, k, b.lists, [v]);
    }
  }

  /** Splitting a list between the buckets and a side list `rest` keeps it whole
      whichever of the two the next value goes to. */
  lemma SplitStep<K(!new), V>(b: Buckets<K, V>, rest: seq<V>, xs: seq<V>, k: K, v: V)
    requires Valid(b) && multiset(Values(b)) + multiset(rest) == multiset(xs)
    ensures multiset(Values(Append(b, k, v))) + multiset(rest) == multiset(xs + [v])
    ensures multiset(Values(b)) + multiset(rest + [v]) == multiset(xs + [v])
  {
    AppendValues(b, k, v);
    MultisetSnoc(multiset(Values(b)), rest, xs, v);
  }

  lemma MultisetSnoc<V>(vs: multiset<V>, rest: seq<V>, xs: seq<V>, v: V)
    requires vs + multiset(rest) == multiset(xs)
    ensures (vs + multiset{v}) + multiset(rest) == multiset(xs + [v])
    ensures vs + multiset(rest + [v]) == multiset(xs + [v])
  {
    assert multiset(xs + [v]) == multiset(xs) + multiset{v};
    assert multiset(rest + [v]) == multiset(rest) + multiset{v};
  }

  /** Walking the keys in order: the values up to key `j` are those before it followed by
      its list. */
  lemma FlattenPrefix<K(!new), V>(keys: seq<K>, lists: map<K, seq<V>>, j: nat)
    requires j < |keys| && keys[j] in lists
    ensures Flatten(keys[..j + 1], lists) == Flatten(keys[..j], lists) + lists[keys[j]]
  {
    assert keys[..j + 1] == keys[..j] + [keys[j]];
    FlattenSnoc(keys[..j], keys[j], lists);
  }

  lemma MapFlattenPrefix<K(!new), V, R>(f: V -> R, keys: seq<K>, lists: map<K, seq<V>>, j: nat)
    requires j < |keys| && keys[j] in lists
    ensures Seqs.Map(f, Flatten(keys[..j + 1], lists)) == Seqs.Map(f, Flatten(keys[..j], lists)) + Seqs.Map(f, lists[keys[j]])
  {
    FlattenPrefix(keys, lists, j);
    Seqs.MapAppend(f, Flatten(keys[..j], lists), lists[keys[j]]);
  }

  lemma SomesFlattenPrefix<K(!new), V, R>(f: V -> Option<R>, keys: seq<K>, lists: map<K, seq<V>>, j: nat)
    requires j < |keys| && keys[j] in lists
    ensures Seqs.Somes(Seqs.Map(f, Flatten(keys[..j + 1], lists)))
            == Seqs.Somes(Seqs.Map(f, Flatten(keys[..j], lists))) + Seqs.Somes(Seqs.Map(f, lists[keys[j]]))
  {
    MapFlattenPrefix(f, keys, lists, j);
    Seqs.SomesAppend(Seqs.Map(f, Flatten(keys[..j], lists)), Seqs.Map(f, lists[keys[j]]));
  }
}
