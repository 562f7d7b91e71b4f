/**
  One bucket of the extendible hash table: at most `size` key/value pairs kept in
  insertion order, and the bucket's local depth.  Find, Insert and Remove scan the
  pairs front to back as the bucket's `list_` is scanned; since a bucket is a value
  here, the two operations that change it return the new bucket.
*/
module HashBucket {
  import opened Wrappers

  datatype Bucket<K, V> = Bucket(size: nat, depth: nat, items: seq<(K, V)>)

  /** The keys stored in a list of pairs. */
  ghost function Keys<K, V>(items: seq<(K, V)>): set<K>
  {
    set e | e in items :: e.0
  }

  /** No key occurs twice. */
  ghost predicate UniqueKeys<K, V>(items: seq<(K, V)>)
  {
    forall i, j | 0 <= i < j < |items| :: items[i].0 != items[j].0
  }

  /** What a bucket maps `key` to: the value of the first pair with that key. */
  function Lookup<K(==), V>(items: seq<(K, V)>, key: K): (r: Option<V>)
    ensures r.Some? <==> key in Keys(items)
    ensures r.Some? ==> (key, r.value) in items
  {
    if |items| == 0 then None
    else if items[0].0 == key then Some(items[0].1)
    else
      assert Keys(items) == {items[0].0} + Keys(items[1..]) by {
        assert items == [items[0]] + items[1..];
      }
      Lookup(items[1..], key)
  }

  /** A bucket is full once it holds `size` pairs. */
  predicate IsFull<K, V>(b: Bucket<K, V>)
  {
    |b.items| >= b.size
  }

  /** Every pair list obtained by deleting the pairs equal to `e`. */
  function Without<K(==), V(==)>(items: seq<(K, V)>, e: (K, V)): (r: seq<(K, V)>)
    ensures |r| <= |items|
    ensures forall x | x in r :: x in items && x != e
    ensures forall x | x in items && x != e :: x in r
  {
    if |items| == 0 then []
    else
      assert items == [items[0]] + items[1..];
      (if items[0] == e then [] else [items[0]]) + Without(items[1..], e)
  }

  lemma LookupUnique<K, V>(items: seq<(K, V)>, key: K, v: V)
    requires UniqueKeys(items)
    requires (key, v) in items
    ensures Lookup(items, key) == Some(v)
  {
    var r := Lookup(items, key);
    var i :| 0 <= i < |items| && items[i] == (key, v);
    var j :| 0 <= j < |items| && items[j] == (key, r.value);
    assert i == j;
  }

  lemma {:induction false} LookupAppend<K, V>(items: seq<(K, V)>, key: K, value: V, k: K)
    requires key !in Keys(items)
    ensures Lookup(items + [(key, value)], k) == if k == key then Some(value) else Lookup(items, k)
  {
    if |items| > 0 {
      assert (items + [(key, value)])[1..] == items[1..] + [(key, value)];
      assert Keys(items[1..]) <= Keys(items) by {
        forall x | x in Keys(items[1..]) ensures x in Keys(items) {
          var e :| e in items[1..] && e.0 == x;
          assert e in items;
        }
      }
      LookupAppend(items[1..], key, value, k);
    }
  }

  lemma {:induction false} LookupOverwrite<K, V>(items: seq<(K, V)>, i: nat, key: K, value: V, k: K)
    requires i < |items| && items[i].0 == key
    requires forall j | 0 <= j < i :: items[j].0 != key
    ensures Lookup(items[i := (key, value)], k) == if k == key then Some(value) else Lookup(items, k)
  {
    if i > 0 {
      assert items[i := (key, value)][1..] == items[1..][i - 1 := (key, value)];
      LookupOverwrite(items[1..], i - 1, key, value, k);
    }
  }

  lemma KeysOverwrite<K, V>(items: seq<(K, V)>, i: nat, key: K, value: V)
    requires i < |items| && items[i].0 == key
    ensures Keys(items[i := (key, value)]) == Keys(items)
  {
    var items' := items[i := (key, value)];
    forall x | x in Keys(items') ensures x in Keys(items) {
      var e :| e in items' && e.0 == x;
      var j :| 0 <= j < |items'| && items'[j] == e;
      assert items[j].0 == x;
    }
    forall x | x in Keys(items) ensures x in Keys(items') {
      var e :| e in items && e.0 == x;
      var j :| 0 <= j < |items| && items[j] == e;
      assert items'[j].0 == x;
    }
  }

  /** Deleting the pair `(key, v)` of a key-unique list unmaps `key` and nothing else. */
  lemma {:induction false} LookupWithout<K, V>(items: seq<(K, V)>, key: K, v: V, k: K)
    requires UniqueKeys(items)
    requires Lookup(items, key) == Some(v)
    ensures Lookup(Without(items, (key, v)), k) == if k == key then None else Lookup(items, k)
    ensures UniqueKeys(Without(items, (key, v)))
    ensures |Without(items, (key, v))| == |items| - 1
  {
    var rest := items[1..];
    assert UniqueKeys(rest);
    if items[0].0 == key {
      assert items[0] == (key, v);
      assert key !in Keys(rest) by {
        forall j | 0 <= j < |rest| ensures rest[j].0 != key {
          assert rest[j] == items[j + 1];
        }
        KeysByIndex(rest, key);
      }
      WithoutAbsent(rest, (key, v));
      assert Without(items, (key, v)) == rest;
    } else {
      LookupWithout(rest, key, v, k);
      var w := Without(rest, (key, v));
      assert Without(items, (key, v)) == [items[0]] + w;
      assert items[0].0 !in Keys(w) by {
        forall j | 0 <= j < |rest| ensures rest[j].0 != items[0].0 {
          assert rest[j] == items[j + 1];
        }
        KeysByIndex(rest, items[0].0);
        forall e | e in w ensures e.0 != items[0].0 {
          assert e in rest;
        }
      }
      UniqueCons(items[0], w);
    }
  }

  lemma {:induction false} WithoutAbsent<K, V>(items: seq<(K, V)>, e: (K, V))
    requires e.0 !in Keys(items)
    ensures Without(items, e) == items
  {
    if |items| > 0 {
      assert items[0] in items;
      assert Keys(items[1..]) <= Keys(items) by {
        forall x | x in Keys(items[1..]) ensures x in Keys(items) {
          var f :| f in items[1..] && f.0 == x;
          assert f in items;
        }
      }
      WithoutAbsent(items[1..], e);
      assert items == [items[0]] + items[1..];
    }
  }

  /** A key is stored iff some position holds it. */
  lemma KeysByIndex<K, V>(items: seq<(K, V)>, key: K)
    ensures key in Keys(items) <==> exists j :: 0 <= j < |items| && items[j].0 == key
  {
    if key in Keys(items) {
      var e :| e in items && e.0 == key;
      var j :| 0 <= j < |items| && items[j] == e;
    }
  }

  /** A key-unique list has as many keys as pairs. */
  lemma {:induction false} UniqueKeysCard<K, V>(items: seq<(K, V)>)
    requires UniqueKeys(items)
    ensures |Keys(items)| == |items|
  {
    if |items| > 0 {
      var rest := items[1..];
      assert items == [items[0]] + rest;
      assert Keys(items) == {items[0].0} + Keys(rest);
      forall j | 0 <= j < |rest| ensures rest[j].0 != items[0].0 {
        assert rest[j] == items[j + 1];
      }
      KeysByIndex(rest, items[0].0);
      UniqueKeysCard(rest);
    }
  }

  lemma UniqueCons<K, V>(e: (K, V), items: seq<(K, V)>)
    requires UniqueKeys(items)
    requires e.0 !in Keys(items)
    ensures UniqueKeys([e] + items)
  {
    var s := [e] + items;
    forall i, j | 0 <= i < j < |s| ensures s[i].0 != s[j].0 {
      if i == 0 {
        assert s[j] in items;
      } else {
        assert s[i] == items[i - 1] && s[j] == items[j - 1];
      }
    }
  }

  /**
    Bucket::Find: scans the pairs for `key`; on a miss the out-value is the
    value-initialised `V{}`, passed here as `zero`.
  */
  method Find<K(==), V>(b: Bucket<K, V>, key: K, zero: V) returns (found: bool, value: V)
    ensures found <==> key in Keys(b.items)
    ensures found ==> (key, value) in b.items && Lookup(b.items, key) == Some(value)
    ensures !found ==> value == zero
  {
    var i := 0;
    while i < |b.items|
      invariant 0 <= i <= |b.items|
      invariant Lookup(b.items, key) == Lookup(b.items[i..], key)
    {
      if b.items[i].0 == key {
        return true, b.items[i].1;
      }
      assert b.items[i..][1..] == b.items[i + 1..];
      i := i + 1;
    }
    return false, zero;
  }

  /**
    Bucket::Insert: overwrites the value in place when `key` is present, appends
    when there is room, and otherwise fails, leaving the bucket as it was.
  */
  method Insert<K(==), V>(b: Bucket<K, V>, key: K, value: V) returns (ok: bool, b': Bucket<K, V>)
    ensures b'.size == b.size && b'.depth == b.depth
    ensures ok <==> key in Keys(b.items) || !IsFull(b)
    ensures ok ==> forall k :: Lookup(b'.items, k) == if k == key then Some(value) else Lookup(b.items, k)
    ensures !ok ==> b' == b
    ensures key in Keys(b.items) ==> |b'.items| == |b.items| && Keys(b'.items) == Keys(b.items)
    ensures key !in Keys(b.items) && ok ==> b'.items == b.items + [(key, value)]
    ensures UniqueKeys(b.items) ==> UniqueKeys(b'.items)
    ensures |b.items| <= b.size ==> |b'.items| <= b'.size
  {
    var i := 0;
    while i < |b.items|
      invariant 0 <= i <= |b.items|
      invariant forall j | 0 <= j < i :: b.items[j].0 != key
    {
      if b.items[i].0 == key {
        b' := b.(items := b.items[i := (key, value)]);
        forall k ensures Lookup(b'.items, k) == if k == key then Some(value) else Lookup(b.items, k) {
          LookupOverwrite(b.items, i, key, value, k);
        }
        KeysOverwrite(b.items, i, key, value);
        assert UniqueKeys(b.items) ==> UniqueKeys(b'.items) by {
          if UniqueKeys(b.items) {
            forall p, q | 0 <= p < q < |b'.items| ensures b'.items[p].0 != b'.items[q].0 {
              assert b'.items[p].0 == b.items[p].0 && b'.items[q].0 == b.items[q].0;
            }
          }
        }
        return true, b';
      }
      i := i + 1;
    }
    KeysByIndex(b.items, key);
    if IsFull(b) {
      return false, b;
    }
    b' := b.(items := b.items + [(key, value)]);
    forall k ensures Lookup(b'.items, k) == if k == key then Some(value) else Lookup(b.items, k) {
      LookupAppend(b.items, key, value, k);
    }
    assert UniqueKeys(b.items) ==> UniqueKeys(b'.items) by {
      if UniqueKeys(b.items) {
        forall p, q | 0 <= p < q < |b'.items| ensures b'.items[p].0 != b'.items[q].0 {
          if q == |b.items| {
            assert b'.items[p] == b.items[p];
          }
        }
      }
    }
    return true, b';
  }

  /**
    Bucket::Remove: finds the value stored under `key` and deletes every pair equal
    to that key/value pair; `zero` is the value-initialised `V{}` handed to Find.
  */
  method Remove<K(==), V(==)>(b: Bucket<K, V>, key: K, zero: V) returns (removed: bool, b': Bucket<K, V>)
    ensures b'.size == b.size && b'.depth == b.depth
    ensures removed <==> key in Keys(b.items)
    ensures !removed ==> b' == b
    ensures removed ==> b'.items == Without(b.items, (key, Lookup(b.items, key).value))
    ensures UniqueKeys(b.items) ==> UniqueKeys(b'.items)
    ensures UniqueKeys(b.items) ==> forall k :: Lookup(b'.items, k) == if k == key then None else Lookup(b.items, k)
    ensures UniqueKeys(b.items) && removed ==> |b'.items| == |b.items| - 1
  {
    var found, val := Find(b, key, zero);
    if !found {
      return false, b;
    }
    b' := b.(items := Without(b.items, (key, val)));
    if UniqueKeys(b.items) {
      forall k ensures Lookup(b'.items, k) == if k == key then None else Lookup(b.items, k) {
        LookupWithout(b.items, key, val, k);
      }
      LookupWithout(b.items, key, val, key);
    }
    return true, b';
  }
}
