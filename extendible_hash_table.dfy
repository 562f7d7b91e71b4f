/**
  The extendible hash table.  The directory `dir` holds `2^globalDepth` bucket ids
  into the arena `buckets` (two slots share a bucket exactly when they hold the same
  id, as two `shared_ptr`s do when they point to the same bucket).  The ghost field
  `contents` is the key/value map the table stands for; Valid() ties it to the
  lookup through IndexOf.
*/
module ExtendibleHashTable {
  import opened Wrappers
  import opened Bits
  import opened HashBucket
  import opened HashDirectory

  class ExtendibleHashTable<K(==, !new), V(==)> {
    const bucketSize: nat
    /** `std::hash<K>`, left abstract. */
    const hash: K -> nat
    /** The value-initialised `V{}` that Find hands back on a miss. */
    const zero: V
    var globalDepth: nat
    var numBuckets: nat
    var dir: seq<nat>
    var buckets: seq<Bucket<K, V>>
    ghost var contents: map<K, V>

    ghost predicate Valid()
      reads this
    {
      && DirInv(hash, bucketSize, globalDepth, dir, buckets)
      && Represents(hash, globalDepth, dir, buckets, contents)
      && numBuckets == |Reachable(dir)|
    }

    /** One empty bucket of depth 0 behind the single slot of a depth-0 directory. */
    constructor (bucketSize: nat, hash: K -> nat, zero: V)
      ensures Valid()
      ensures this.bucketSize == bucketSize && this.hash == hash && this.zero == zero
      ensures globalDepth == 0 && numBuckets == 1 && contents == map[]
    {
      this.bucketSize := bucketSize;
      this.hash := hash;
      this.zero := zero;
      globalDepth := 0;
      numBuckets := 1;
      dir := [0];
      buckets := [Bucket(bucketSize, 0, [])];
      contents := map[];
      new;
      assert dir[0] == 0;
      assert Reachable(dir) == {0};
    }

    /** The directory slot of `key`: its hash masked with the low `globalDepth` bits. */
    function IndexOf(key: K): (i: nat)
      reads this
      ensures i < Pow2(globalDepth)
    {
      SlotOf(hash, globalDepth, key)
    }

    function GetGlobalDepth(): (r: nat)
      reads this
      requires Valid()
      ensures |dir| == Pow2(r)
      ensures forall i | 0 <= i < |dir| :: buckets[dir[i]].depth <= r
    {
      globalDepth
    }

    /** The local depth of the bucket at slot `dirIndex`; that bucket fills `2^(globalDepth - r)` slots. */
    function GetLocalDepth(dirIndex: nat): (r: nat)
      reads this
      requires Valid() && dirIndex < |dir|
      ensures r <= globalDepth
      ensures Occurrences(dir, dir[dirIndex]) == Pow2(globalDepth - r)
    {
      SlotsPerBucket(hash, bucketSize, globalDepth, dir, buckets, dirIndex);
      buckets[dir[dirIndex]].depth
    }

    /** The number of distinct buckets the directory refers to. */
    function GetNumBuckets(): (r: nat)
      reads this
      requires Valid()
      ensures r == |Reachable(dir)|
    {
      numBuckets
    }

    method Find(key: K) returns (found: bool, value: V)
      requires Valid()
      ensures found <==> key in contents
      ensures found ==> value == contents[key]
      ensures !found ==> value == zero
    {
      var index := IndexOf(key);
      found, value := HashBucket.Find(buckets[dir[index]], key, zero);
      assert Get(hash, globalDepth, dir, buckets, key) == MapGet(contents, key);
    }

    method Remove(key: K) returns (removed: bool)
      requires Valid()
      modifies this
      ensures Valid()
      ensures removed <==> key in old(contents)
      ensures contents == old(contents) - {key}
      ensures dir == old(dir) && globalDepth == old(globalDepth) && numBuckets == old(numBuckets)
    {
      var index := IndexOf(key);
      var t := dir[index];
      assert Get(hash, globalDepth, dir, buckets, key) == MapGet(contents, key);
      var nb;
      removed, nb := HashBucket.Remove(buckets[t], key, zero);
      DropPair(index, key, nb);
      buckets := buckets[t := nb];
      contents := contents - {key};
    }

    /** Writing back a bucket from which `key` was deleted keeps the invariant for the map without `key`. */
    lemma DropPair(index: nat, key: K, nb: Bucket<K, V>)
      requires Valid() && index < |dir| && index == IndexOf(key)
      requires nb.size == buckets[dir[index]].size && nb.depth == buckets[dir[index]].depth
      requires forall x | x in nb.items :: x in buckets[dir[index]].items
      requires UniqueKeys(nb.items)
      requires forall k :: Lookup(nb.items, k) == if k == key then None else Lookup(buckets[dir[index]].items, k)
      ensures DirInv(hash, bucketSize, globalDepth, dir, buckets[dir[index] := nb])
      ensures Represents(hash, globalDepth, dir, buckets[dir[index] := nb], contents - {key})
    {
      var t := dir[index];
      assert KeysMatchSlot(hash, buckets[t], index);
      SubsetLength(nb.items, buckets[t].items);
      ReplaceKeepsInv(hash, bucketSize, globalDepth, dir, buckets, index, nb);
      var arena, dropped := buckets[t := nb], contents - {key};
      forall k ensures Get(hash, globalDepth, dir, arena, k) == MapGet(dropped, k) {
        assert Get(hash, globalDepth, dir, buckets, k) == MapGet(contents, k);
      }
    }

    /**
      Inserts or overwrites `key`.  Terminates only when fewer than `bucketSize`
      other stored keys share the whole hash of `key`; otherwise the split loop
      of the source never empties the target bucket.
    */
    method Insert(key: K, value: V)
      requires Valid()
      requires |SameHash(hash, contents, key)| < bucketSize
      modifies this
      ensures Valid()
      ensures contents == old(contents)[key := value]
      ensures globalDepth >= old(globalDepth) && numBuckets >= old(numBuckets)
      ensures old(key in contents && contents[key] == value) ==>
                dir == old(dir) && buckets == old(buckets) && globalDepth == old(globalDepth) && numBuckets == old(numBuckets)
    {
      var same := DropStale(key, value);
      if same {
        UpdateSame(old(contents), key, value);
        return;
      }
      ghost var m := BitsFor(HashBound(hash, contents.Keys) + hash(key));
      assert SameHash(hash, contents, key) == SameHash(hash, old(contents), key);
      while IsFull(buckets[dir[IndexOf(key)]])
        invariant Valid()
        invariant key !in contents && contents == old(contents) - {key}
        invariant |SameHash(hash, contents, key)| < bucketSize
        invariant globalDepth >= old(globalDepth) && numBuckets >= old(numBuckets)
        decreases m - buckets[dir[IndexOf(key)]].depth
      {
        DeepTargetHasRoom(hash, bucketSize, globalDepth, dir, buckets, contents, key, m);
        MakeRoom(key);
      }
      PutAbsent(key, value);
      UpdateAfterDrop(old(contents), key, value);
    }

    /** The last part of Insert: Bucket::Insert of the absent `key` into its bucket, which has room. */
    method PutAbsent(key: K, value: V)
      requires Valid() && key !in contents && !IsFull(buckets[dir[IndexOf(key)]])
      modifies this
      ensures Valid() && contents == old(contents)[key := value]
      ensures dir == old(dir) && globalDepth == old(globalDepth) && numBuckets == old(numBuckets)
    {
      var index := IndexOf(key);
      var t := dir[index];
      assert Get(hash, globalDepth, dir, buckets, key) == None;
      var _, nb := HashBucket.Insert(buckets[t], key, value);
      AddPair(index, key, value, nb);
      buckets := buckets[t := nb];
      contents := contents[key := value];
    }

    /**
      The first part of Insert: when `key` is stored with a value equal to `value`
      reports `same` and changes nothing; otherwise deletes any stale pair of `key`.
    */
    method DropStale(key: K, value: V) returns (same: bool)
      requires Valid()
      modifies this
      ensures Valid()
      ensures same <==> old(key in contents && contents[key] == value)
      ensures same ==> buckets == old(buckets) && contents == old(contents)
      ensures !same ==> contents == old(contents) - {key}
      ensures dir == old(dir) && globalDepth == old(globalDepth) && numBuckets == old(numBuckets)
    {
      var index := IndexOf(key);
      var t := dir[index];
      assert Get(hash, globalDepth, dir, buckets, key) == MapGet(contents, key);
      var found, val := HashBucket.Find(buckets[t], key, zero);
      if found {
        if val == value {
          return true;
        }
        var _, nb := HashBucket.Remove(buckets[t], key, zero);
        DropPair(index, key, nb);
        buckets := buckets[t := nb];
        contents := contents - {key};
      } else {
        assert contents == contents - {key};
      }
      return false;
    }

    /** Writing back a bucket to which the absent `key` was appended keeps the invariant for the map with `key`. */
    lemma AddPair(index: nat, key: K, value: V, nb: Bucket<K, V>)
      requires Valid() && index < |dir| && index == IndexOf(key)
      requires key !in contents
      requires nb.size == buckets[dir[index]].size && nb.depth == buckets[dir[index]].depth
      requires nb.items == buckets[dir[index]].items + [(key, value)]
      requires |nb.items| <= nb.size && UniqueKeys(nb.items)
      requires forall k :: Lookup(nb.items, k) == if k == key then Some(value) else Lookup(buckets[dir[index]].items, k)
      ensures DirInv(hash, bucketSize, globalDepth, dir, buckets[dir[index] := nb])
      ensures Represents(hash, globalDepth, dir, buckets[dir[index] := nb], contents[key := value])
    {
      var t := dir[index];
      assert KeysMatchSlot(hash, buckets[t], index);
      forall e | e in nb.items ensures Low(hash(e.0), nb.depth) == Low(index, nb.depth) {
        if e !in buckets[t].items {
          assert e == (key, value);
          LowLow(hash(key), globalDepth, nb.depth);
        }
      }
      ReplaceKeepsInv(hash, bucketSize, globalDepth, dir, buckets, index, nb);
      var arena, added := buckets[t := nb], contents[key := value];
      forall k ensures Get(hash, globalDepth, dir, arena, k) == MapGet(added, k) {
        assert Get(hash, globalDepth, dir, buckets, k) == MapGet(contents, k);
      }
    }

    /**
      One round of Insert's loop: doubles the directory when the bucket at the slot
      of `key` is as deep as the directory, then splits that bucket.  The bucket the
      key's slot now refers to is one level deeper.
    */
    method MakeRoom(key: K)
      requires Valid()
      modifies this
      ensures Valid() && contents == old(contents)
      ensures globalDepth >= old(globalDepth) && numBuckets == old(numBuckets) + 1
      ensures buckets[dir[IndexOf(key)]].depth == old(buckets[dir[IndexOf(key)]].depth) + 1
    {
      var index := IndexOf(key);
      ghost var d := buckets[dir[index]].depth;
      ghost var t := dir[index];
      if buckets[dir[index]].depth == globalDepth {
        Grow();
      }
      assert dir[IndexOf(key)] == t && dir[index] == t;
      SplitBucket(index);
    }

    /** Doubles the directory: the new upper half repeats the lower half slot by slot. */
    method Grow()
      requires Valid()
      modifies this
      ensures Valid() && contents == old(contents)
      ensures globalDepth == old(globalDepth) + 1
      ensures dir == old(dir) + old(dir)
      ensures buckets == old(buckets) && numBuckets == old(numBuckets)
      ensures forall k :: dir[IndexOf(k)] == old(dir[IndexOf(k)])
    {
      ghost var g, dir0 := globalDepth, dir;
      globalDepth := globalDepth + 1;
      var len := |dir|;
      for i := 0 to len
        invariant dir == dir0 + dir0[..i]
        invariant globalDepth == g + 1 && buckets == old(buckets) && numBuckets == old(numBuckets)
        invariant contents == old(contents)
      {
        dir := dir + [dir[i]];
      }
      assert dir0[..len] == dir0;
      DoubledValid(g, dir0);
    }

    /** The state right after doubling a valid directory `dir0` of depth `g` is valid, and every key keeps its bucket. */
    lemma DoubledValid(g: nat, dir0: seq<nat>)
      requires DirInv(hash, bucketSize, g, dir0, buckets)
      requires Represents(hash, g, dir0, buckets, contents)
      requires numBuckets == |Reachable(dir0)|
      requires globalDepth == g + 1 && dir == dir0 + dir0
      ensures Valid()
      ensures forall k :: dir[IndexOf(k)] == dir0[SlotOf(hash, g, k)]
    {
      DoublingKeepsInv(hash, bucketSize, g, dir0, buckets);
      DoublingKeepsMapping(hash, bucketSize, g, dir0, buckets);
      forall k ensures dir[IndexOf(k)] == dir0[SlotOf(hash, g, k)] {
        DoubledSlot(dir0, g, IndexOf(k));
        LowLow(hash(k), g + 1, g);
      }
    }

    /**
      Splits the bucket at slot `index` into two buckets one level deeper, its pairs
      partitioned by hash bit `depth`, and re-points each slot that referred to it by
      the same bit of the slot number.
    */
    method SplitBucket(index: nat)
      requires Valid() && index < |dir| && buckets[dir[index]].depth < globalDepth
      modifies this
      ensures Valid() && contents == old(contents) && globalDepth == old(globalDepth)
      ensures numBuckets == old(numBuckets) + 1
      ensures buckets == SplitArena(hash, old(buckets), old(dir[index]))
      ensures Repointed(old(dir), dir, old(dir[index]), |old(buckets)|, |old(buckets)| + 1, old(buckets[dir[index]].depth))
      ensures forall i | 0 <= i < |dir| && old(dir[i]) == old(dir[index]) :: buckets[dir[i]].depth == old(buckets[dir[index]].depth) + 1
    {
      ghost var dir0, buckets0 := dir, buckets;
      var t := dir[index];
      var target := buckets[t];
      var d := target.depth;
      assert BucketOk(target, bucketSize, globalDepth);
      var b0, b1 := Partition(hash, target, bucketSize);
      numBuckets := numBuckets + 1;
      var n0, n1 := |buckets|, |buckets| + 1;
      buckets := buckets + [b0, b1];
      Repoint(t, n0, n1, d);
      SplitValid(index, dir0, buckets0);
    }

    /** The state right after splitting the bucket at slot `index` of a valid `dir0`, `buckets0` is valid. */
    lemma SplitValid(index: nat, dir0: seq<nat>, buckets0: seq<Bucket<K, V>>)
      requires DirInv(hash, bucketSize, globalDepth, dir0, buckets0)
      requires Represents(hash, globalDepth, dir0, buckets0, contents)
      requires numBuckets == |Reachable(dir0)| + 1
      requires index < |dir0| && buckets0[dir0[index]].depth < globalDepth
      requires buckets == SplitArena(hash, buckets0, dir0[index])
      requires Repointed(dir0, dir, dir0[index], |buckets0|, |buckets0| + 1, buckets0[dir0[index]].depth)
      ensures Valid()
      ensures forall i | 0 <= i < |dir| && dir0[i] == dir0[index] :: buckets[dir[i]].depth == buckets0[dir0[index]].depth + 1
    {
      SplitKeepsInv(hash, bucketSize, globalDepth, dir0, buckets0, index, dir);
    }

    /** Points every slot that referred to bucket `t` at `n1` when bit `d` of the slot number is set, at `n0` otherwise. */
    method Repoint(t: nat, n0: nat, n1: nat, d: nat)
      modifies this
      ensures Repointed(old(dir), dir, t, n0, n1, d)
      ensures buckets == old(buckets) && globalDepth == old(globalDepth) && numBuckets == old(numBuckets)
      ensures contents == old(contents)
    {
      for i := 0 to |dir|
        invariant |dir| == |old(dir)|
        invariant forall j | 0 <= j < i :: dir[j] == if old(dir)[j] == t then (if Bit(j, d) == 1 then n1 else n0) else old(dir)[j]
        invariant forall j | i <= j < |dir| :: dir[j] == old(dir)[j]
        invariant buckets == old(buckets) && globalDepth == old(globalDepth) && numBuckets == old(numBuckets)
        invariant contents == old(contents)
      {
        if dir[i] == t {
          if Bit(i, d) != 0 {
            dir := dir[i := n1];
          } else {
            dir := dir[i := n0];
          }
        }
      }
    }
  }

  /**
    The partition step of a split: two fresh buckets of size `size` and depth one
    more than `target`'s, filled by Bucket::Insert with `target`'s pairs in order,
    each into the bucket chosen by its hash bit `target.depth`.
  */
  method Partition<K(==), V>(hash: K -> nat, target: Bucket<K, V>, size: nat) returns (b0: Bucket<K, V>, b1: Bucket<K, V>)
    requires UniqueKeys(target.items) && |target.items| <= size
    ensures b0 == Bucket(size, target.depth + 1, ByBit(hash, target.items, target.depth, 0))
    ensures b1 == Bucket(size, target.depth + 1, ByBit(hash, target.items, target.depth, 1))
  {
    var d := target.depth;
    b0 := Bucket(size, d + 1, []);
    b1 := Bucket(size, d + 1, []);
    for i := 0 to |target.items|
      invariant b0 == Bucket(size, d + 1, ByBit(hash, target.items[..i], d, 0))
      invariant b1 == Bucket(size, d + 1, ByBit(hash, target.items[..i], d, 1))
    {
      var e := target.items[i];
      if Bit(hash(e.0), d) != 0 {
        PrefixStep(hash, target.items, i, d, 1);
        PrefixStep(hash, target.items, i, d, 0);
        b1 := Append(b1, e);
      } else {
        PrefixStep(hash, target.items, i, d, 0);
        PrefixStep(hash, target.items, i, d, 1);
        b0 := Append(b0, e);
      }
    }
    assert target.items[..|target.items|] == target.items;
  }

  lemma UpdateSame<K, V>(m: map<K, V>, k: K, v: V)
    requires k in m && m[k] == v
    ensures m[k := v] == m
  {
  }

  lemma UpdateAfterDrop<K, V>(m: map<K, V>, k: K, v: V)
    ensures (m - {k})[k := v] == m[k := v]
  {
  }

  /** A list whose every pair is in a key-unique list of length `n` has length at most `n`. */
  lemma SubsetLength<K, V>(a: seq<(K, V)>, b: seq<(K, V)>)
    requires UniqueKeys(a) && UniqueKeys(b)
    requires forall x | x in a :: x in b
    ensures |a| <= |b|
  {
    UniqueKeysCard(a);
    UniqueKeysCard(b);
    assert Keys(a) <= Keys(b);
    SubsetCard(Keys(a), Keys(b));
  }

  /** Bucket::Insert of a pair whose key is absent into a bucket with room: the pair is appended. */
  method Append<K(==), V>(b: Bucket<K, V>, e: (K, V)) returns (b': Bucket<K, V>)
    requires e.0 !in Keys(b.items) && !IsFull(b)
    ensures b' == b.(items := b.items + [e])
  {
    var _, r := HashBucket.Insert(b, e.0, e.1);
    b' := r;
  }

  /**
    Extending the prefix `items[..i]` of a key-unique list by `items[i]` extends the
    half that pair belongs to; its key is new there, and the half stays shorter
    than the whole list.
  */
  lemma PrefixStep<K, V>(hash: K -> nat, items: seq<(K, V)>, i: nat, d: nat, bit: nat)
    requires UniqueKeys(items) && i < |items|
    ensures Bit(hash(items[i].0), d) == bit ==> ByBit(hash, items[..i + 1], d, bit) == ByBit(hash, items[..i], d, bit) + [items[i]]
    ensures Bit(hash(items[i].0), d) != bit ==> ByBit(hash, items[..i + 1], d, bit) == ByBit(hash, items[..i], d, bit)
    ensures items[i].0 !in Keys(ByBit(hash, items[..i], d, bit))
    ensures |ByBit(hash, items[..i], d, bit)| < |items|
  {
    var w := ByBit(hash, items[..i], d, bit);
    ByBitMembers(hash, items[..i], d, bit);
    forall e | e in w ensures e.0 != items[i].0 {
      assert e in items[..i];
    }
    assert items[..i + 1] == items[..i] + [items[i]];
    ByBitSnoc(hash, items[..i], items[i], d, bit);
  }
}
