/**
  The directory of the extendible hash table, as values: `dir` holds, for each of
  the `2^g` slots, the arena index of the bucket the slot refers to, so two slots
  share a bucket exactly when they hold the same index.  This module states the
  directory invariant and proves that doubling the directory, splitting a bucket
  and replacing a bucket's pairs keep it and change the key/value mapping only as
  intended.
*/
module HashDirectory {
  import opened Wrappers
  import opened Bits
  import opened HashBucket

  /** IndexOf: the directory slot of `key`, the low `g` bits of its hash. */
  function SlotOf<K>(hash: K -> nat, g: nat, key: K): (i: nat)
    ensures i < Pow2(g)
  {
    Low(hash(key), g)
  }

  /** The directory has `2^g` slots, each naming a bucket of the arena. */
  ghost predicate Indexed<K, V>(g: nat, dir: seq<nat>, buckets: seq<Bucket<K, V>>)
  {
    |dir| == Pow2(g) && forall i | 0 <= i < |dir| :: dir[i] < |buckets|
  }

  /** A bucket reachable from the directory: made with the table's bucket size, no deeper than the directory, key-unique, within capacity. */
  ghost predicate BucketOk<K, V>(b: Bucket<K, V>, bucketSize: nat, g: nat)
  {
    b.size == bucketSize && b.depth <= g && |b.items| <= b.size && UniqueKeys(b.items)
  }

  /** Every key of `b` agrees with slot `i` on the low `b.depth` bits of its hash. */
  ghost predicate KeysMatchSlot<K, V>(hash: K -> nat, b: Bucket<K, V>, i: nat)
  {
    forall e | e in b.items :: Low(hash(e.0), b.depth) == Low(i, b.depth)
  }

  /**
    The directory invariant.  Besides the shape and the per-bucket conditions, two
    slots share a bucket of local depth `d` exactly when they agree on their low `d`
    bits; hence a bucket of depth `d` is referenced by `2^(g - d)` slots
    (SlotsPerBucket).
  */
  ghost predicate DirInv<K, V>(hash: K -> nat, bucketSize: nat, g: nat, dir: seq<nat>, buckets: seq<Bucket<K, V>>)
  {
    && Indexed(g, dir, buckets)
    && (forall i | 0 <= i < |dir| :: BucketOk(buckets[dir[i]], bucketSize, g))
    && (forall i | 0 <= i < |dir| :: KeysMatchSlot(hash, buckets[dir[i]], i))
    && (forall i, j | 0 <= i < |dir| && 0 <= j < |dir| ::
          dir[i] == dir[j] <==> Low(i, buckets[dir[i]].depth) == Low(j, buckets[dir[i]].depth))
  }

  /** What the table maps `key` to: the lookup in the bucket at the key's slot. */
  ghost function Get<K, V>(hash: K -> nat, g: nat, dir: seq<nat>, buckets: seq<Bucket<K, V>>, key: K): Option<V>
    requires Indexed(g, dir, buckets)
  {
    Lookup(buckets[dir[SlotOf(hash, g, key)]].items, key)
  }

  ghost function MapGet<K, V>(m: map<K, V>, key: K): Option<V>
  {
    if key in m then Some(m[key]) else None
  }

  /** The directory and arena represent the map `contents`. */
  ghost predicate Represents<K(!new), V>(hash: K -> nat, g: nat, dir: seq<nat>, buckets: seq<Bucket<K, V>>, contents: map<K, V>)
    requires Indexed(g, dir, buckets)
  {
    forall key :: Get(hash, g, dir, buckets, key) == MapGet(contents, key)
  }

  /** The set of arena indices some slot refers to: the live buckets. */
  ghost function Reachable(dir: seq<nat>): set<nat>
  {
    set i | 0 <= i < |dir| :: dir[i]
  }

  /** The number of slots that refer to bucket `id`. */
  function Occurrences(dir: seq<nat>, id: nat): nat
  {
    if |dir| == 0 then 0
    else Occurrences(dir[..|dir| - 1], id) + (if dir[|dir| - 1] == id then 1 else 0)
  }

  /** A stored pair sits in the bucket its key's slot refers to, and the table maps its key to its value. */
  lemma GetStored<K, V>(hash: K -> nat, bs: nat, g: nat, dir: seq<nat>, buckets: seq<Bucket<K, V>>, i: nat, e: (K, V))
    requires DirInv(hash, bs, g, dir, buckets)
    requires i < |dir| && e in buckets[dir[i]].items
    ensures dir[SlotOf(hash, g, e.0)] == dir[i]
    ensures Get(hash, g, dir, buckets, e.0) == Some(e.1)
  {
    var d := buckets[dir[i]].depth;
    var s := SlotOf(hash, g, e.0);
    LowLow(hash(e.0), g, d);
    assert Low(i, d) == Low(s, d);
    assert dir[i] == dir[s];
    LookupUnique(buckets[dir[i]].items, e.0, e.1);
  }

  /** Bucket `id` is referenced by exactly `2^(g - d)` slots, `d` its local depth. */
  lemma SlotsPerBucket<K, V>(hash: K -> nat, bs: nat, g: nat, dir: seq<nat>, buckets: seq<Bucket<K, V>>, i: nat)
    requires DirInv(hash, bs, g, dir, buckets)
    requires i < |dir|
    ensures buckets[dir[i]].depth <= g
    ensures Occurrences(dir, dir[i]) == Pow2(g - buckets[dir[i]].depth)
  {
    var d := buckets[dir[i]].depth;
    var r := Low(i, d);
    forall j | 0 <= j < |dir| ensures dir[j] == dir[i] <==> Low(j, d) == r {
    }
    OccurrencesCount(dir, dir[i], d, r, |dir|);
    assert dir[..|dir|] == dir;
    CountLowBlock(g, d, r);
  }

  lemma {:induction false} OccurrencesCount(dir: seq<nat>, id: nat, d: nat, r: nat, n: nat)
    requires n <= |dir|
    requires forall j | 0 <= j < |dir| :: dir[j] == id <==> Low(j, d) == r
    ensures Occurrences(dir[..n], id) == CountLow(0, n, d, r)
  {
    if n > 0 {
      assert dir[..n][..n - 1] == dir[..n - 1];
      OccurrencesCount(dir, id, d, r, n - 1);
    }
  }

  // ---------------------------------------------------------------------------
  // Directory doubling
  // ---------------------------------------------------------------------------

  /** After doubling, slot `i` refers to what slot `i` without its top bit referred to. */
  lemma DoubledSlot(dir: seq<nat>, g: nat, i: nat)
    requires |dir| == Pow2(g) && i < 2 * Pow2(g)
    ensures (dir + dir)[i] == dir[Low(i, g)]
  {
    if i < Pow2(g) {
      LowOfSmall(i, g);
    } else {
      LowShift(i - Pow2(g), g, g);
      LowOfSmall(i - Pow2(g), g);
    }
  }

  /** After doubling, each slot refers to the bucket of the slot it copies, and agrees with it on that bucket's depth many bits. */
  lemma DoubledSlots<K, V>(hash: K -> nat, bs: nat, g: nat, dir: seq<nat>, buckets: seq<Bucket<K, V>>)
    requires DirInv(hash, bs, g, dir, buckets)
    ensures Indexed(g + 1, dir + dir, buckets)
    ensures forall i | 0 <= i < |dir + dir| :: (dir + dir)[i] == dir[Low(i, g)]
    ensures forall i | 0 <= i < |dir + dir| ::
      Low(i, buckets[(dir + dir)[i]].depth) == Low(Low(i, g), buckets[(dir + dir)[i]].depth)
  {
    var D := dir + dir;
    forall i | 0 <= i < |D|
      ensures D[i] == dir[Low(i, g)]
      ensures Low(i, buckets[D[i]].depth) == Low(Low(i, g), buckets[D[i]].depth)
    {
      DoubledSlot(dir, g, i);
      LowLow(i, g, buckets[D[i]].depth);
    }
  }

  /**
    Doubling (`global_depth_++` and appending a copy of every slot) keeps the
    invariant at depth `g + 1`.
  */
  lemma DoublingKeepsInv<K, V>(hash: K -> nat, bs: nat, g: nat, dir: seq<nat>, buckets: seq<Bucket<K, V>>)
    requires DirInv(hash, bs, g, dir, buckets)
    ensures DirInv(hash, bs, g + 1, dir + dir, buckets)
  {
    var D := dir + dir;
    DoubledSlots(hash, bs, g, dir, buckets);
    forall i | 0 <= i < |D| ensures KeysMatchSlot(hash, buckets[D[i]], i) && BucketOk(buckets[D[i]], bs, g + 1) {
      assert KeysMatchSlot(hash, buckets[dir[Low(i, g)]], Low(i, g));
    }
    forall i, j | 0 <= i < |D| && 0 <= j < |D|
      ensures D[i] == D[j] <==> Low(i, buckets[D[i]].depth) == Low(j, buckets[D[i]].depth)
    {
      var d := buckets[D[i]].depth;
      LowLow(j, g, d);
      assert dir[Low(i, g)] == dir[Low(j, g)] <==> Low(Low(i, g), d) == Low(Low(j, g), d);
    }
  }

  /** Doubling changes no lookup and no set of live buckets. */
  lemma DoublingKeepsMapping<K, V>(hash: K -> nat, bs: nat, g: nat, dir: seq<nat>, buckets: seq<Bucket<K, V>>)
    requires DirInv(hash, bs, g, dir, buckets)
    ensures Indexed(g + 1, dir + dir, buckets)
    ensures forall key :: Get(hash, g + 1, dir + dir, buckets, key) == Get(hash, g, dir, buckets, key)
    ensures Reachable(dir + dir) == Reachable(dir)
  {
    var D := dir + dir;
    DoubledSlots(hash, bs, g, dir, buckets);
    forall key ensures Get(hash, g + 1, D, buckets, key) == Get(hash, g, dir, buckets, key) {
      LowLow(hash(key), g + 1, g);
    }
    forall id | id in Reachable(D) ensures id in Reachable(dir) {
      var i :| 0 <= i < |D| && D[i] == id;
      assert dir[Low(i, g)] == id;
    }
    forall id | id in Reachable(dir) ensures id in Reachable(D) {
      var i :| 0 <= i < |dir| && dir[i] == id;
      assert D[i] == id;
    }
  }

  // ---------------------------------------------------------------------------
  // Bucket split
  // ---------------------------------------------------------------------------

  /** The pairs whose hash has bit `d` equal to `bit`, in their original order. */
  function ByBit<K, V>(hash: K -> nat, items: seq<(K, V)>, d: nat, bit: nat): (r: seq<(K, V)>)
    ensures |r| <= |items|
  {
    if |items| == 0 then []
    else (if Bit(hash(items[0].0), d) == bit then [items[0]] else []) + ByBit(hash, items[1..], d, bit)
  }

  /** A half of the partition holds exactly the pairs whose hash bit `d` is `bit`. */
  lemma {:induction false} ByBitMembers<K, V>(hash: K -> nat, items: seq<(K, V)>, d: nat, bit: nat)
    ensures forall e | e in ByBit(hash, items, d, bit) :: e in items && Bit(hash(e.0), d) == bit
    ensures forall e | e in items && Bit(hash(e.0), d) == bit :: e in ByBit(hash, items, d, bit)
  {
    if |items| > 0 {
      ByBitMembers(hash, items[1..], d, bit);
      assert items == [items[0]] + items[1..];
    }
  }

  /** Partitioning a list extended by one pair extends the half that pair belongs to. */
  lemma {:induction false} ByBitSnoc<K, V>(hash: K -> nat, items: seq<(K, V)>, x: (K, V), d: nat, bit: nat)
    ensures ByBit(hash, items + [x], d, bit) == ByBit(hash, items, d, bit) + if Bit(hash(x.0), d) == bit then [x] else []
  {
    var u := if Bit(hash(x.0), d) == bit then [x] else [];
    if |items| > 0 {
      var y, rest := items[0], items[1..];
      var t := if Bit(hash(y.0), d) == bit then [y] else [];
      assert (items + [x])[0] == y;
      assert (items + [x])[1..] == rest + [x];
      ByBitSnoc(hash, rest, x, d, bit);
      assert ByBit(hash, items + [x], d, bit) == t + (ByBit(hash, rest, d, bit) + u);
      assert ByBit(hash, items, d, bit) == t + ByBit(hash, rest, d, bit);
    } else {
      assert items + [x] == [x];
      assert ByBit(hash, [x], d, bit) == u + ByBit(hash, [x][1..], d, bit);
    }
  }

  /** One of the two buckets replacing `b` in a split: depth one more, the pairs with hash bit `b.depth` equal to `bit`. */
  function SplitHalf<K, V>(hash: K -> nat, b: Bucket<K, V>, bit: nat): Bucket<K, V>
  {
    Bucket(b.size, b.depth + 1, ByBit(hash, b.items, b.depth, bit))
  }

  /** The two halves of a split together hold every pair of the old bucket exactly once. */
  lemma {:induction false} ByBitPartition<K, V>(hash: K -> nat, items: seq<(K, V)>, d: nat)
    ensures multiset(ByBit(hash, items, d, 0)) + multiset(ByBit(hash, items, d, 1)) == multiset(items)
  {
    if |items| > 0 {
      var x, rest := items[0], items[1..];
      ByBitPartition(hash, rest, d);
      assert items == [x] + rest;
      var w0, w1 := ByBit(hash, rest, d, 0), ByBit(hash, rest, d, 1);
      if Bit(hash(x.0), d) == 0 {
        assert ByBit(hash, items, d, 0) == [x] + w0 && ByBit(hash, items, d, 1) == w1;
      } else {
        assert ByBit(hash, items, d, 0) == w0 && ByBit(hash, items, d, 1) == [x] + w1;
      }
    }
  }

  lemma {:induction false} ByBitUnique<K, V>(hash: K -> nat, items: seq<(K, V)>, d: nat, bit: nat)
    requires UniqueKeys(items)
    ensures UniqueKeys(ByBit(hash, items, d, bit))
  {
    if |items| > 0 {
      var rest := items[1..];
      assert UniqueKeys(rest);
      ByBitUnique(hash, rest, d, bit);
      if Bit(hash(items[0].0), d) == bit {
        var w := ByBit(hash, rest, d, bit);
        forall j | 0 <= j < |rest| ensures rest[j].0 != items[0].0 {
          assert rest[j] == items[j + 1];
        }
        ByBitMembers(hash, rest, d, bit);
        forall e | e in w ensures e.0 != items[0].0 {
          assert e in rest;
        }
        UniqueCons(items[0], w);
      }
    }
  }

  /** A half of a split maps a key as the old bucket did when the key's hash bit selects that half, and maps nothing else. */
  lemma {:induction false} LookupByBit<K, V>(hash: K -> nat, items: seq<(K, V)>, d: nat, bit: nat, key: K)
    ensures Lookup(ByBit(hash, items, d, bit), key) == if Bit(hash(key), d) == bit then Lookup(items, key) else None
  {
    if |items| > 0 {
      var x, rest := items[0], items[1..];
      var w := ByBit(hash, rest, d, bit);
      LookupByBit(hash, rest, d, bit, key);
      if Bit(hash(x.0), d) == bit {
        assert ByBit(hash, items, d, bit) == [x] + w;
        assert ([x] + w)[1..] == w;
      } else {
        assert ByBit(hash, items, d, bit) == w;
      }
    }
  }

  /** Re-pointing: slots that referred to `t` now refer to `n1` if their bit `d` is set and to `n0` otherwise. */
  ghost predicate Repointed(dir: seq<nat>, dir': seq<nat>, t: nat, n0: nat, n1: nat, d: nat)
  {
    |dir'| == |dir| &&
    forall i | 0 <= i < |dir| :: dir'[i] == if dir[i] == t then (if Bit(i, d) == 1 then n1 else n0) else dir[i]
  }

  /** The arena after a split of the bucket at slot `s`: the two halves are appended. */
  ghost function SplitArena<K, V>(hash: K -> nat, buckets: seq<Bucket<K, V>>, t: nat): seq<Bucket<K, V>>
    requires t < |buckets|
  {
    buckets + [SplitHalf(hash, buckets[t], 0), SplitHalf(hash, buckets[t], 1)]
  }

  /** After a split, every slot refers to a well-formed bucket whose keys match the slot. */
  lemma SplitSlotsOk<K, V>(hash: K -> nat, bs: nat, g: nat, dir: seq<nat>, buckets: seq<Bucket<K, V>>, s: nat, dir': seq<nat>)
    requires DirInv(hash, bs, g, dir, buckets)
    requires s < |dir| && buckets[dir[s]].depth < g
    requires Repointed(dir, dir', dir[s], |buckets|, |buckets| + 1, buckets[dir[s]].depth)
    ensures Indexed(g, dir', SplitArena(hash, buckets, dir[s]))
    ensures forall i | 0 <= i < |dir'| :: BucketOk(SplitArena(hash, buckets, dir[s])[dir'[i]], bs, g)
    ensures forall i | 0 <= i < |dir'| :: KeysMatchSlot(hash, SplitArena(hash, buckets, dir[s])[dir'[i]], i)
  {
    var t := dir[s];
    var B := buckets[t];
    var d := B.depth;
    var arena := SplitArena(hash, buckets, t);
    assert Indexed(g, dir', arena);
    forall i | 0 <= i < |dir'|
      ensures BucketOk(arena[dir'[i]], bs, g)
      ensures KeysMatchSlot(hash, arena[dir'[i]], i)
    {
      if dir[i] == t {
        var bit := Bit(i, d);
        assert arena[dir'[i]] == SplitHalf(hash, B, bit);
        ByBitUnique(hash, B.items, d, bit);
        assert KeysMatchSlot(hash, B, i);
        ByBitMembers(hash, B.items, d, bit);
        forall e | e in ByBit(hash, B.items, d, bit) ensures Low(hash(e.0), d + 1) == Low(i, d + 1) {
          LowEqStep(hash(e.0), i, d);
        }
      } else {
        assert arena[dir'[i]] == buckets[dir[i]];
      }
    }
  }

  /** After a split, two slots share a bucket exactly when they agree on that bucket's depth many low bits. */
  lemma SplitSharing<K, V>(hash: K -> nat, bs: nat, g: nat, dir: seq<nat>, buckets: seq<Bucket<K, V>>, s: nat, dir': seq<nat>)
    requires DirInv(hash, bs, g, dir, buckets)
    requires s < |dir| && buckets[dir[s]].depth < g
    requires Repointed(dir, dir', dir[s], |buckets|, |buckets| + 1, buckets[dir[s]].depth)
    requires Indexed(g, dir', SplitArena(hash, buckets, dir[s]))
    ensures forall i, j | 0 <= i < |dir'| && 0 <= j < |dir'| ::
      dir'[i] == dir'[j] <==>
        Low(i, SplitArena(hash, buckets, dir[s])[dir'[i]].depth) == Low(j, SplitArena(hash, buckets, dir[s])[dir'[i]].depth)
  {
    var t := dir[s];
    var d := buckets[t].depth;
    var arena := SplitArena(hash, buckets, t);
    forall i, j | 0 <= i < |dir'| && 0 <= j < |dir'|
      ensures dir'[i] == dir'[j] <==> Low(i, arena[dir'[i]].depth) == Low(j, arena[dir'[i]].depth)
    {
      LowEqStep(i, j, d);
      if dir[i] == t {
        assert arena[dir'[i]].depth == d + 1;
        if dir[j] == t {
          assert Low(i, d) == Low(j, d);
        } else {
          assert Low(i, d) != Low(j, d);
        }
      } else {
        assert arena[dir'[i]] == buckets[dir[i]];
      }
    }
  }

  /**
    Splitting the bucket at slot `s` (two new buckets of depth `d + 1` partitioned by
    hash bit `d`, and the slots re-pointed by the same bit of their index) keeps the
    invariant, changes no lookup, and adds exactly one live bucket.
  */
  lemma SplitKeepsInv<K, V>(hash: K -> nat, bs: nat, g: nat, dir: seq<nat>, buckets: seq<Bucket<K, V>>, s: nat, dir': seq<nat>)
    requires DirInv(hash, bs, g, dir, buckets)
    requires s < |dir| && buckets[dir[s]].depth < g
    requires Repointed(dir, dir', dir[s], |buckets|, |buckets| + 1, buckets[dir[s]].depth)
    ensures DirInv(hash, bs, g, dir', SplitArena(hash, buckets, dir[s]))
    ensures forall key :: Get(hash, g, dir', SplitArena(hash, buckets, dir[s]), key) == Get(hash, g, dir, buckets, key)
    ensures |Reachable(dir')| == |Reachable(dir)| + 1
  {
    var t := dir[s];
    var d := buckets[t].depth;
    var arena := SplitArena(hash, buckets, t);
    SplitSlotsOk(hash, bs, g, dir, buckets, s, dir');
    SplitSharing(hash, bs, g, dir, buckets, s, dir');
    forall key ensures Get(hash, g, dir', arena, key) == Get(hash, g, dir, buckets, key) {
      var i := SlotOf(hash, g, key);
      if dir[i] == t {
        BitLow(hash(key), g, d);
        LookupByBit(hash, buckets[t].items, d, Bit(i, d), key);
      } else {
        assert arena[dir'[i]] == buckets[dir[i]];
      }
    }
    SplitReachable(hash, bs, g, dir, buckets, s, dir');
  }

  /** Both halves of a split are referenced: by the two slots below `2^(d+1)` that agree with `s` on `d` bits. */
  lemma SplitHalvesReferenced<K, V>(hash: K -> nat, bs: nat, g: nat, dir: seq<nat>, buckets: seq<Bucket<K, V>>, s: nat, dir': seq<nat>)
    requires DirInv(hash, bs, g, dir, buckets)
    requires s < |dir| && buckets[dir[s]].depth < g
    requires Repointed(dir, dir', dir[s], |buckets|, |buckets| + 1, buckets[dir[s]].depth)
    ensures |buckets| in Reachable(dir') && |buckets| + 1 in Reachable(dir')
  {
    var t := dir[s];
    var d := buckets[t].depth;
    var i0 := Low(s, d);
    var i1 := i0 + Pow2(d);
    Pow2Monotone(d + 1, g);
    LowLow(s, d, d);
    LowShift(i0, d, d);
    BitOfSmall(i0, d);
    assert Low(i0, d) == Low(s, d) && Low(i1, d) == Low(s, d);
    assert dir[i0] == t && dir[i1] == t;
    assert dir'[i0] == |buckets| && dir'[i1] == |buckets| + 1;
  }

  /** After a split the live buckets are the old ones but the split one, plus the two halves. */
  lemma SplitReachableSet<K, V>(hash: K -> nat, bs: nat, g: nat, dir: seq<nat>, buckets: seq<Bucket<K, V>>, s: nat, dir': seq<nat>)
    requires DirInv(hash, bs, g, dir, buckets)
    requires s < |dir| && buckets[dir[s]].depth < g
    requires Repointed(dir, dir', dir[s], |buckets|, |buckets| + 1, buckets[dir[s]].depth)
    ensures Reachable(dir') == (Reachable(dir) - {dir[s]}) + {|buckets|, |buckets| + 1}
  {
    var t := dir[s];
    var R, R' := Reachable(dir), Reachable(dir');
    SplitHalvesReferenced(hash, bs, g, dir, buckets, s, dir');
    forall id | id in R' ensures id in (R - {t}) + {|buckets|, |buckets| + 1} {
      var i :| 0 <= i < |dir'| && dir'[i] == id;
    }
    forall id | id in R - {t} ensures id in R' {
      var i :| 0 <= i < |dir| && dir[i] == id;
      assert dir'[i] == id;
    }
  }

  lemma SplitReachable<K, V>(hash: K -> nat, bs: nat, g: nat, dir: seq<nat>, buckets: seq<Bucket<K, V>>, s: nat, dir': seq<nat>)
    requires DirInv(hash, bs, g, dir, buckets)
    requires s < |dir| && buckets[dir[s]].depth < g
    requires Repointed(dir, dir', dir[s], |buckets|, |buckets| + 1, buckets[dir[s]].depth)
    ensures |Reachable(dir')| == |Reachable(dir)| + 1
  {
    var t := dir[s];
    var R := Reachable(dir);
    SplitReachableSet(hash, bs, g, dir, buckets, s, dir');
    assert t in R;
    forall id | id in R ensures id < |buckets| {
      var i :| 0 <= i < |dir| && dir[i] == id;
    }
    assert |buckets| !in R - {t} && |buckets| + 1 !in R - {t};
    assert |R - {t}| == |R| - 1;
  }

  // ---------------------------------------------------------------------------
  // Changing the pairs of one bucket
  // ---------------------------------------------------------------------------

  /**
    Replacing the bucket at slot `s` by one of the same size and depth whose keys still
    match `s` keeps the invariant; lookups through that bucket now see its new pairs.
  */
  lemma ReplaceKeepsInv<K, V>(hash: K -> nat, bs: nat, g: nat, dir: seq<nat>, buckets: seq<Bucket<K, V>>, s: nat, nb: Bucket<K, V>)
    requires DirInv(hash, bs, g, dir, buckets)
    requires s < |dir|
    requires nb.size == bs && nb.depth == buckets[dir[s]].depth
    requires |nb.items| <= nb.size && UniqueKeys(nb.items)
    requires KeysMatchSlot(hash, nb, s)
    ensures DirInv(hash, bs, g, dir, buckets[dir[s] := nb])
    ensures forall key ::
              Get(hash, g, dir, buckets[dir[s] := nb], key) ==
              if dir[SlotOf(hash, g, key)] == dir[s] then Lookup(nb.items, key) else Get(hash, g, dir, buckets, key)
  {
    var t := dir[s];
    var arena := buckets[t := nb];
    assert Indexed(g, dir, arena);
    forall i | 0 <= i < |dir| && dir[i] == t ensures KeysMatchSlot(hash, nb, i) {
      assert Low(i, nb.depth) == Low(s, nb.depth);
    }
    forall i | 0 <= i < |dir| ensures arena[dir[i]].depth == buckets[dir[i]].depth {
    }
  }

  /** The set of stored keys other than `key` whose whole hash equals that of `key`. */
  ghost function SameHash<K, V>(hash: K -> nat, contents: map<K, V>, key: K): set<K>
  {
    set k | k in contents && k != key && hash(k) == hash(key)
  }

  /** A strict upper bound on the hashes of a finite set of keys. */
  ghost function HashBound<K>(hash: K -> nat, keys: set<K>): (b: nat)
    ensures forall k | k in keys :: hash(k) < b
    decreases |keys|
  {
    if keys == {} then 0
    else
      var k :| k in keys;
      var b := HashBound(hash, keys - {k});
      if hash(k) < b then b else hash(k) + 1
  }

  /**
    Once the bucket at the slot of an absent `key` is at least `m` deep, where `2^m`
    exceeds every hash involved, it holds only keys with exactly the hash of `key`;
    fewer than `bs` of those exist, so it is not full.  This bounds Insert's split loop.
  */
  lemma DeepTargetHasRoom<K(!new), V>(hash: K -> nat, bs: nat, g: nat, dir: seq<nat>, buckets: seq<Bucket<K, V>>,
                                contents: map<K, V>, key: K, m: nat)
    requires DirInv(hash, bs, g, dir, buckets)
    requires Represents(hash, g, dir, buckets, contents)
    requires key !in contents
    requires hash(key) < Pow2(m) && forall k | k in contents :: hash(k) < Pow2(m)
    requires |SameHash(hash, contents, key)| < bs
    ensures IsFull(buckets[dir[SlotOf(hash, g, key)]]) ==> buckets[dir[SlotOf(hash, g, key)]].depth < m
  {
    var s := SlotOf(hash, g, key);
    var B := buckets[dir[s]];
    var d := B.depth;
    if d >= m {
      Pow2Monotone(m, d);
      LowLow(hash(key), g, d);
      LowOfSmall(hash(key), d);
      forall e | e in B.items ensures e.0 in SameHash(hash, contents, key) {
        GetStored(hash, bs, g, dir, buckets, s, e);
        assert e.0 in contents;
        LowOfSmall(hash(e.0), d);
      }
      assert Keys(B.items) <= SameHash(hash, contents, key);
      UniqueKeysCard(B.items);
      SubsetCard(Keys(B.items), SameHash(hash, contents, key));
    }
  }

  lemma SubsetCard<T>(a: set<T>, b: set<T>)
    requires a <= b
    ensures |a| <= |b|
  {
    assert b == a + (b - a);
  }
}
