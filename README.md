# BusTub buffer-pool core: extendible hash table and LRU-K replacer

This project models two parts of the BusTub buffer pool:

- The **extendible hash table** (`src/container/hash/extendible_hash_table.cpp`). It is the page table of the buffer pool.
  - A directory of `2^global_depth` slots points to buckets. Each bucket holds at most `bucket_size` key/value pairs and has a local depth.
  - `Insert` first drops a stale pair for the key. It then doubles the directory and splits full buckets by the next hash bit until the key's bucket has room.
- The **LRU-K replacer** (`src/buffer/lru_k_replacer.cpp`). It chooses the frame to evict.
  - Frames seen fewer than `k` times sit in a cold history list. The others sit in a hot buffer list.
  - `Evict` takes the oldest evictable cold frame. Only if there is none does it take the oldest evictable hot frame.
  - `curr_size_` counts the evictable frames.

Both components are written imperatively, with one file per core component:

- `extendible_hash_table.dfy` holds class `ExtendibleHashTable`.
  - The fields are `globalDepth`, `numBuckets` and `dir`.
  - `buckets` is an arena of bucket values. A directory slot holds an arena index, so two slots share a bucket exactly when they hold the same index, as two `shared_ptr`s do.
  - The ghost field `contents` is the map the table stands for.
  - `Insert` keeps the source's while loop. Directory doubling is a loop of `push_back`s, and re-pointing is a loop over the slots.
- `hash_bucket.dfy` holds the bucket value and its operations on it.
  - `Find` is a loop over the pairs that returns whether the key is present, and its value.
  - `Insert` is a loop over the pairs that returns whether it succeeded, and the new bucket value.
  - `Remove` calls `Find` and then deletes the pair found with the recursive function `Without`.
- `hash_directory.dfy` holds, as functions and lemmas:
  - the directory invariant;
  - the proofs that doubling, splitting and replacing a bucket keep the invariant and the key/value mapping.
- `bits.dfy` defines `x & ((1 << d) - 1)` and `(x & (1 << d)) != 0` digit by digit, with their laws.
- `lru_k_replacer.dfy` holds class `LRUKReplacer`.
  - The fields are `historyList`, `bufferList`, `historyCnt`, `evictable` and `currSize`.
  - The scan loops walk from the oldest end and stop at the first evictable frame.
  - Each method is proved to move `View()` exactly as the matching step function of `replacer_state.dfy` does.
- `replacer_lemmas.dfy` proves what those step functions promise.

## Model

| member | source | states |
|---|---|---|
| ExtendibleHashTable.ExtendibleHashTable.constructor | src/container/hash/extendible_hash_table.cpp:21-23 | The table starts with global depth 0, one bucket of depth 0 and no pairs, and the directory invariant holds. |
| ExtendibleHashTable.ExtendibleHashTable.IndexOf | src/container/hash/extendible_hash_table.cpp:26-29 | The slot of a key is one of the `2^global_depth` directory slots. |
| ExtendibleHashTable.ExtendibleHashTable.GetGlobalDepth | src/container/hash/extendible_hash_table.cpp:32-40 | The directory has `2^r` slots, and no reachable bucket is deeper than `r`. |
| ExtendibleHashTable.ExtendibleHashTable.GetLocalDepth | src/container/hash/extendible_hash_table.cpp:43-51 | Local depth is at most global depth, and the bucket is referenced by exactly `2^(global - local)` slots. |
| ExtendibleHashTable.ExtendibleHashTable.GetNumBuckets | src/container/hash/extendible_hash_table.cpp:54-62 | `num_buckets_` equals the number of distinct buckets the directory references. |
| ExtendibleHashTable.ExtendibleHashTable.Find | src/container/hash/extendible_hash_table.cpp:65-71 | Returns true iff the key is in the table, with its value; otherwise the default value. |
| ExtendibleHashTable.ExtendibleHashTable.Remove | src/container/hash/extendible_hash_table.cpp:74-81 | Returns true iff the key was present. Afterwards the key is gone, every other pair is kept, and the directory, global depth and bucket count are unchanged. |
| ExtendibleHashTable.ExtendibleHashTable.Insert | src/container/hash/extendible_hash_table.cpp:84-134 | Afterwards the key maps to the value and every other key keeps its value. The invariant holds and depth and bucket count never decrease. Re-inserting an existing pair changes nothing: directory, depth, count and buckets. |
| ExtendibleHashTable.ExtendibleHashTable.DropStale | src/container/hash/extendible_hash_table.cpp:87-96 | Reports whether the key is present with an equal value, in which case nothing changes. Otherwise any stale pair for the key is removed. |
| ExtendibleHashTable.ExtendibleHashTable.MakeRoom | src/container/hash/extendible_hash_table.cpp:99-128 | One loop round: the key's bucket becomes one level deeper, and the bucket count grows by exactly 1. Contents are kept. |
| ExtendibleHashTable.ExtendibleHashTable.Grow | src/container/hash/extendible_hash_table.cpp:102-108 | Doubling adds 1 to the global depth and makes `dir == old(dir) + old(dir)`, so `dir[i + len] == dir[i]`. `|dir| == 2^global_depth` and the invariant are kept, and every key's slot still names the same bucket. |
| ExtendibleHashTable.ExtendibleHashTable.SplitBucket | src/container/hash/extendible_hash_table.cpp:109-128 | The split adds two buckets of depth `old_depth + 1`, holding the old pairs whose hash bit `old_depth` is 0 and 1. Slots are re-pointed by that bit, the bucket count grows by 1, and the invariant and contents are kept. |
| ExtendibleHashTable.ExtendibleHashTable.Repoint | src/container/hash/extendible_hash_table.cpp:120-128 | Every slot that named the split bucket now names the half matching its bit `old_depth`. Every other slot is unchanged. |
| ExtendibleHashTable.ExtendibleHashTable.PutAbsent | src/container/hash/extendible_hash_table.cpp:131-133 | The final insertion into the non-full bucket adds the pair and keeps the invariant. |
| ExtendibleHashTable.Partition | src/container/hash/extendible_hash_table.cpp:112-119 | The loop over the old pairs yields exactly the pairs with hash bit 0 and with hash bit 1, in order. |
| HashDirectory.ByBitPartition | src/container/hash/extendible_hash_table.cpp:112-119 | The two halves of a split together hold the old bucket's pairs, none lost and none duplicated (multiset equality). |
| HashDirectory.LookupByBit | src/container/hash/extendible_hash_table.cpp:112-119 | Looking a key up in a half finds it exactly when the key's hash bit selects that half. |
| HashDirectory.SplitKeepsInv | src/container/hash/extendible_hash_table.cpp:109-128 | A split keeps the directory invariant and every key's lookup, and references exactly one more bucket. |
| HashDirectory.SplitSlotsOk | src/container/hash/extendible_hash_table.cpp:120-128 | After re-pointing, every slot's bucket holds only keys matching the slot on the bucket's local-depth hash bits, and local depth ≤ global depth. |
| HashDirectory.SplitReachableSet | src/container/hash/extendible_hash_table.cpp:109-128 | After a split, the referenced buckets are the old ones minus the split bucket, plus the two halves. |
| HashDirectory.DoublingKeepsInv | src/container/hash/extendible_hash_table.cpp:102-108 | Doubling the directory keeps the directory invariant at global depth + 1. |
| HashDirectory.DoublingKeepsMapping | src/container/hash/extendible_hash_table.cpp:102-108 | Doubling keeps every key's lookup and the set of referenced buckets. |
| HashDirectory.GetStored | src/container/hash/extendible_hash_table.cpp:26-29 | Any stored pair is found through IndexOf: its key's slot names the bucket holding it. |
| HashDirectory.SlotsPerBucket | src/container/hash/extendible_hash_table.cpp:43-51 | A bucket of local depth `d` is referenced by `2^(g - d)` slots. |
| HashDirectory.DeepTargetHasRoom | src/container/hash/extendible_hash_table.cpp:98-129 | Once the key's bucket is deep enough to separate all distinct hashes, it holds fewer than `bucket_size` pairs. So the split loop ends whenever fewer than `bucket_size` other keys share the key's hash. |
| HashDirectory.ReplaceKeepsInv | src/container/hash/extendible_hash_table.cpp:155-180 | Replacing a bucket's pairs by a key-unique list that matches its slots keeps the invariant. Lookups change only inside that bucket. |
| ExtendibleHashTable.Append | src/container/hash/extendible_hash_table.cpp:115-117 | Putting a pair whose key is absent into a bucket that is not full appends it at the end and changes nothing else. |
| HashDirectory.SlotOf | src/container/hash/extendible_hash_table.cpp:26-29 | `hash & ((1 << g) - 1)` is a slot below `2^g`. |
| HashBucket.IsFull | src/container/hash/extendible_hash_table.cpp:175-177 | A bucket is full once it holds `bucket_size` pairs. |
| HashBucket.Find | src/container/hash/extendible_hash_table.cpp:143-152 | Returns true iff the key is in the bucket, with its stored value. On a miss the out-value is the default `{}`. |
| HashBucket.Remove | src/container/hash/extendible_hash_table.cpp:155-165 | Returns true iff the key was present. Its pair is removed and every other key's lookup is kept. The bucket stays key-unique and shrinks by one. |
| HashBucket.Insert | src/container/hash/extendible_hash_table.cpp:168-180 | A present key is overwritten in place with unchanged length. Otherwise the pair is appended only below capacity. Returns false only when full with the key absent, in which case nothing changes. Size never exceeds capacity and keys stay unique. |
| HashBucket.LookupWithout | src/container/hash/extendible_hash_table.cpp:159-162 | `list_.remove({key, val})` deletes exactly the key's pair from a key-unique list. |
| Bits.LowEqStep | src/container/hash/extendible_hash_table.cpp:114-122 | Agreeing on `d + 1` low bits means agreeing on `d` low bits and on bit `d`. This is the basis of the split by `hash & mask`. |
| LRUKReplacer.LRUKReplacer.constructor | src/buffer/lru_k_replacer.cpp:21 | A new replacer has empty lists and maps and `curr_size_ == 0`, and satisfies the invariant. |
| LRUKReplacer.LRUKReplacer.FindOldest | src/buffer/lru_k_replacer.cpp:30-40 | The reverse scan stops at the oldest, that is last, evictable frame of the list, or reports none. |
| LRUKReplacer.LRUKReplacer.EvictOldest | src/buffer/lru_k_replacer.cpp:29-54 | The two scans and the removal of the frame found, exactly as `EvictOldestStep`. |
| LRUKReplacer.LRUKReplacer.Evict | src/buffer/lru_k_replacer.cpp:23-56 | Moves the state exactly as `EvictStep`, and keeps well-formedness and the invariant. |
| LRUKReplacer.LRUKReplacer.RecordAccess | src/buffer/lru_k_replacer.cpp:58-102 | Moves the state exactly as `AccessStep`, and keeps well-formedness and the invariant. |
| LRUKReplacer.LRUKReplacer.SetEvictable | src/buffer/lru_k_replacer.cpp:104-121 | Moves the state exactly as the corrected `SetEvictableStep`, and keeps the invariant. |
| LRUKReplacer.LRUKReplacer.SetEvictableAsWritten | src/buffer/lru_k_replacer.cpp:104-121 | Moves the state exactly as `SetEvictableAsWrittenStep`, including the zero count that line 111 inserts. |
| LRUKReplacer.LRUKReplacer.Remove | src/buffer/lru_k_replacer.cpp:123-146 | Moves the state exactly as `RemoveStep`, with `InvalidOperation` for the thrown exception. Keeps the invariant. |
| LRUKReplacer.LRUKReplacer.ForgetFrame | src/buffer/lru_k_replacer.cpp:143-145 | Dropping an evictable frame from both maps and lowering `curr_size_` by one moves the state exactly as `Forget`. Evict's copies of these lines, 33-35 and 46-48, call it too. |
| LRUKReplacer.LRUKReplacer.AdmitFrame | src/buffer/lru_k_replacer.cpp:93-94 | Moves the state exactly as `Admit`. |
| LRUKReplacer.LRUKReplacer.CountAccess | src/buffer/lru_k_replacer.cpp:97-101 | Moves the state exactly as `Count`. |
| LRUKReplacer.LRUKReplacer.Toggle | src/buffer/lru_k_replacer.cpp:114-120 | Moves the state exactly as `ReplacerState.Toggle`. |
| LRUKReplacer.LRUKReplacer.Size | src/buffer/lru_k_replacer.cpp:148-151 | `curr_size_` is the number of frames marked evictable. |
| LRUKReplacer.LRUKReplacer.BufferSize | src/buffer/lru_k_replacer.cpp:153 | Under the invariant, the hot list's length is the number of frames seen at least `k` times. |
| LRUKReplacer.LRUKReplacer.HistorySize | src/buffer/lru_k_replacer.cpp:155 | Under the invariant, the cold list's length is the number of frames seen fewer than `k` times. |
| ReplacerState.EvictOldestStep | src/buffer/lru_k_replacer.cpp:29-54 | The scans keep well-formedness: no repeated frame, no frame in both lists, and `curr_size_` equal to the number of evictable frames. |
| ReplacerState.Erase | src/buffer/lru_k_replacer.cpp:36 | Removing a frame from a list deletes exactly that frame and keeps the list repetition-free. A list without the frame is unchanged, and in a repetition-free list the frame's one position is cut out with the rest kept in order. |
| ReplacerState.LastEvictable | src/buffer/lru_k_replacer.cpp:30-31 | The scan's stopping index holds an evictable frame, and no evictable frame comes after it (is older). |
| ReplacerState.Forget | src/buffer/lru_k_replacer.cpp:143-145 | The evictable frames lose exactly `f`, and `curr_size_` is still their number. |
| ReplacerState.EvictStep | src/buffer/lru_k_replacer.cpp:23-56 | Evict keeps well-formedness, and when it evicts nothing the state is unchanged. |
| ReplacerState.IsFull | src/buffer/lru_k_replacer.cpp:64 | The replacer is full when it tracks `replacer_size_` frames. |
| ReplacerState.Admit | src/buffer/lru_k_replacer.cpp:93-94 | The frame becomes the most recent of the cold list and is not evictable. The hot list and the counts are untouched. For a frame without a flag, the evictable frames and `curr_size_` stay as they were. |
| ReplacerState.Count | src/buffer/lru_k_replacer.cpp:97-101 | The frame's count goes up by one, an absent frame counting as 0. No other count, no flag and not `curr_size_` changes. Below `k` the lists are untouched. From `k` on, the frame is at the front of the hot list and nowhere else in either list. |
| ReplacerState.AccessStep | src/buffer/lru_k_replacer.cpp:58-102 | Either the access is dropped with the state unchanged, or the frame is tracked afterwards. |
| ReplacerState.Toggle | src/buffer/lru_k_replacer.cpp:114-120 | The frame's flag becomes the one asked for. Every other flag, both lists and the counts stay as they were. |
| ReplacerState.SetEvictableStep | src/buffer/lru_k_replacer.cpp:104-121 | The corrected SetEvictable, a no-op for an unseen or count-0 frame. Its properties are SetEvictableSpec, SetEvictableKeepsWf and SetEvictableKeepsInv. |
| ReplacerState.SetEvictableAsWrittenStep | src/buffer/lru_k_replacer.cpp:104-121 | SetEvictable as written, inserting a zero count for an unseen frame. SetEvictableKeepsWf shows it keeps well-formedness and placement, and OrphanedFrameAsWritten shows it breaks the invariant. |
| ReplacerState.RemoveStep | src/buffer/lru_k_replacer.cpp:123-146 | An error leaves the state unchanged and happens only for a tracked, non-evictable frame. A successful removal of an accessed frame untracks it, clears its flag and lowers `curr_size_` by one. |
| ReplacerLemmas.EvictChoice | src/buffer/lru_k_replacer.cpp:23-56 | With no evictable frame, Evict returns none and changes nothing. It returns the oldest evictable cold frame if there is one, else the oldest evictable hot frame. The victim was evictable and is afterwards in neither list nor either map, with `curr_size_` one less. |
| ReplacerLemmas.EvictSucceeds | src/buffer/lru_k_replacer.cpp:23-56 | Under the invariant, `curr_size_ > 0` means Evict finds a frame and decreases `curr_size_` by exactly 1. |
| ReplacerLemmas.AccessDropped | src/buffer/lru_k_replacer.cpp:62-92 | An access to an unseen frame, when full with nothing evictable, leaves the whole state unchanged. |
| ReplacerLemmas.AccessCounts | src/buffer/lru_k_replacer.cpp:62-97 | The accessed frame's count goes up by one (an unseen frame starts at 1). In a full replacer an unseen frame either starts at 1 after an eviction, or the access is dropped with the state unchanged. Every other surviving count is kept, so counts only increase. |
| ReplacerLemmas.AccessHot | src/buffer/lru_k_replacer.cpp:97-101 | Once a frame's count reaches `k`, it is at the most-recent end of the hot list and not in the cold list. Under the invariant, a count below `k` keeps it in the cold list only. |
| ReplacerLemmas.AccessKeepsWf | src/buffer/lru_k_replacer.cpp:93-101 | RecordAccess keeps every frame in at most one list, at most once, and keeps `curr_size_` correct. |
| ReplacerLemmas.SetEvictableSpec | src/buffer/lru_k_replacer.cpp:111-120 | A no-op for unseen or count-0 frames. Otherwise the flag becomes the one asked for, and `curr_size_` moves by ±1 exactly when the flag changes. Repeating the call changes nothing more, and the lists and counts are untouched. |
| ReplacerLemmas.RemoveSpec | src/buffer/lru_k_replacer.cpp:127-145 | A no-op on an untracked or count-0 frame. An error with state unchanged on a non-evictable one. Otherwise the frame leaves its list and both maps, and `curr_size_` drops by 1. |
| ReplacerLemmas.RemoveKeepsWf | src/buffer/lru_k_replacer.cpp:138-145 | Remove keeps the lists repetition-free, apart from each other and placed by count, and keeps `curr_size_` correct. |
| ReplacerLemmas.AccessKeepsInv | src/buffer/lru_k_replacer.cpp:58-102 | RecordAccess keeps the invariant: every tracked frame is in the cold list iff its count is below `k`, and in the hot list otherwise. |
| ReplacerLemmas.EvictOldestKeepsInv | src/buffer/lru_k_replacer.cpp:29-54 | The scans keep the invariant. |
| ReplacerLemmas.RemoveKeepsInv | src/buffer/lru_k_replacer.cpp:123-146 | Remove keeps the invariant. |
| ReplacerLemmas.SetEvictableKeepsInv | src/buffer/lru_k_replacer.cpp:104-121 | The corrected SetEvictable keeps the invariant, so every frame it makes evictable is listed and Evict can find it. |
| ReplacerLemmas.ListSizes | src/buffer/lru_k_replacer.cpp:153-155 | Under the invariant, the two list lengths are the numbers of cold and hot frames. |
| ReplacerLemmas.OrphanedFrameAsWritten | src/buffer/lru_k_replacer.cpp:111 | With `k = 2`, run SetEvictable(1, false), RecordAccess(1), SetEvictable(1, true). Afterwards `Size()` is 1, frame 1 is in neither list, and Evict returns false. |
| ReplacerLemmas.OrphanedFrameCorrected | src/buffer/lru_k_replacer.cpp:104-121 | The same calls with the corrected SetEvictable put frame 1 in the cold list, and Evict returns it. |

## Left out

- Locking. The mutexes and `scoped_lock`s of both files are not modelled; every operation runs on its own.
- `std::hash<K>`. It is the constructor parameter `hash: K -> nat`, because its bit-level behaviour belongs to the standard library.
- Bucket lifetime. `shared_ptr` reference counting is replaced by arena indices. A split appends the two halves to the arena, and the old bucket stays there unreferenced, since nothing can reach it.
- The explicit template instantiations at lines 182-187. The table is generic in `K` and `V`, and the replacer uses `int` frame ids.
- Fixed-width integers. `1 << global_depth_` at line 27 is an exact power of two, and `size_t`/`int` counters are unbounded naturals. Widths would matter only beyond 2^31 slots.
- `V val;` and `value = {}`. The value-initialised `V` is the constructor parameter `zero`.
- ExtendibleHashTable.ExtendibleHashTable.Insert: requires fewer than `bucket_size` other stored keys with the key's exact hash (and so `bucket_size >= 1`). Without that, the split loop at lines 98-129 never ends; the model does not model that run.
- BUSTUB_ASSERT. The frame-id checks at lines 61, 107 and 126 are preconditions `frameId <= replacerSize`. The bound is inclusive, as the code writes it, although a frame id equal to `replacer_size_` looks out of range; the model follows the code.
- `operator[]` default insertion on `evictable_`. In `Evict`, `RecordAccess`, `SetEvictable` and `Remove`, an absent `evictable_` entry reads as false and is not materialised; materialising it would only add `false` entries that change nothing observable. The default insertion on `history_cnt_` at line 111 is modelled, in `SetEvictableAsWritten` (see Findings).
- Helpers declared in the headers, outside the two source files:
  - `InsertHistory` is push-to-front.
  - `InsertBuffer` is push-to-front after removing any earlier occurrence.
  - `RemoveNodeHistory` and `RemoveNodeBuffer` are remove-if-present.
  - `IsFull` is "the number of tracked frames equals `replacer_size_`".
  - The bucket's `IsFull()` is "it holds at least `bucket_size` pairs". Since a bucket never holds more than `bucket_size` pairs, this is the same as "exactly `bucket_size`".
  - Their own code is not part of this model.
- The two copies of the scan code. Evict's and RecordAccess's scans share one method, `EvictOldest`, because the code is the same in both.
- The `frame_id_t *` out-parameter of Evict. It is the `Some` value of the result, and the returned `false` is `None`.
- The exception thrown for a pinned frame in Remove. It is the result `InvalidOperation`, with the state unchanged as in the source.

## Findings

| source | as written | input that shows it | evidently intended | confidence | as-written member | corrected member |
|---|---|---|---|---|---|---|
| src/buffer/lru_k_replacer.cpp:111 | `history_cnt_[frame_id] == 0` inserts a zero count for a frame never accessed. A later RecordAccess then treats the frame as already tracked, skips InsertHistory, and leaves it in no list. SetEvictable can still count it in `curr_size_`. | `k = 2`: SetEvictable(1, false); RecordAccess(1); SetEvictable(1, true); Evict. `Size()` is 1, but Evict returns false. | Leave an unseen frame untracked, a no-op as for a count-0 frame. Then every evictable frame is listed, and Evict succeeds whenever `Size() > 0` (EvictSucceeds). | not executed | ReplacerLemmas.OrphanedFrameAsWritten | ReplacerLemmas.SetEvictableKeepsInv |
