# HashRing in Dafny

A model of `Ring<T>`, the consistent-hashing ring of the HashRing crate
(`src/ring.rs`). The ring keeps two tables:

- `link`: an ordered map from a ring position in `[0, 65535)` to a bucket.
  A bucket is a list of tags in insertion order.
- `map`: the item table, from tag to item. The model calls it `table`.

`add_item` gives each new tag `PER_COUNT` = 100 virtual nodes. Node `i`
sits at `hash_index(tag ++ decimal(i))`, the 64-bit string hash reduced
modulo `MAX_INT` = 65535. `remove_item` deletes the tag from those 100
buckets. `select` walks the buckets in ascending key order and returns
the item of the tag it ends on.

The project has three modules:

- `RingSpec` (`ring_spec.dfy`):
  - the constants, the position functions and the decimal rendering;
  - the value-level functions `Placed` and `Removed`, which give the
    bucket table after the loops of `add_item` and `remove_item`;
  - the occurrence counts and the ring invariant `Consistent`;
  - the description of the selection walk;
  - the lemmas about all of these.
- `HashRing` (`ring.dfy`): the class `Ring<T>`. It has the fields `hasher`,
  `link` and `table`, and its methods keep the source's loops.
- `RingScenarios` (`ring_scenarios.dfy`): the crate's unit tests written as
  client code. It also holds the call sequences that make the as-written
  `select` abort.

`Ring.Valid()` is the invariant that every method keeps. It holds when:

- every key of `link` is in range;
- every tag in a bucket has an entry in `table`;
- every tag in a bucket sits at one of its own replica positions.

Only this direction holds. `remove_item` never shrinks `table`, so a tag can
keep its `table` entry after it has left every bucket.

## Model

| member | source | states |
|---|---|---|
| RingSpec.HashIndex | src/ring.rs:66-71 | Every position lies in `[0, 65535)`. It is a function of the hash of the string alone. |
| RingSpec.Decimal | src/ring.rs:22 | `i.to_string()`: a non-empty digit string, with no leading zero unless the number is 0. |
| RingSpec.DecimalRoundTrip | src/ring.rs:22 | Parsing the decimal rendering of `n` gives back `n`. |
| RingSpec.ReplicaInputsDistinct | src/ring.rs:22 | `Decimal` is injective: different replica numbers give different hash inputs `tag ++ decimal(i)`. Their positions may still collide, which `PlacedShape` counts as multiplicities. |
| RingSpec.Replicas | src/ring.rs:21-22 | Exactly `PER_COUNT` positions. The `i`-th is the hash index of `tag ++ decimal(i)`. |
| RingSpec.ReplicasInRange | src/ring.rs:21-22 | Every replica position is a valid ring position. |
| RingSpec.SizeFromKeys | src/ring.rs:97-100 | The node count from position `lo` upward equals the sum of the bucket lengths over the keys from `lo` upward, in ascending order. |
| RingSpec.NodeCountOfKeys | src/ring.rs:97-100 | On in-range keys, the node count is the tests' sum of `items.len()` over the values of `link`, in key order. |
| RingSpec.SizeOfEmpty | src/ring.rs:74-81 | The empty bucket table holds no virtual nodes. |
| RingSpec.OccurrencesPositive | src/ring.rs:24-28 | A tag's occurrence count is positive exactly when some bucket holds it (both directions). |
| RingSpec.TagHasItem | src/ring.rs:59-60 | On a consistent ring every tag in a bucket has an item, so the final table lookup of `select` finds one. |
| RingSpec.AbsentTagCount | src/ring.rs:16-19 | On a consistent ring, a tag with no item occupies no node. |
| RingSpec.Push | src/ring.rs:24-28 | One step of the add loop: `get_mut` and `push` on a present key, `insert` of a one-element bucket on a missing one. The key set gains the visited position, and that bucket grows by exactly one element. |
| RingSpec.Placed | src/ring.rs:21-30 | Defines the bucket table after the add loop has visited the positions `ps` in order, one `Push` per position. |
| RingSpec.PushShape | src/ring.rs:24-28 | One append grows only the visited bucket, by the tag at its end, and creates the key if it was missing. |
| RingSpec.PlacedKeys | src/ring.rs:21-30 | After the add loop, a key is present exactly when it was present before or is one of the visited positions. |
| RingSpec.PlacedShape | src/ring.rs:21-30 | After the add loop, each bucket is its old contents followed by one copy of the tag per visit of that position. Old contents stay a prefix. |
| RingSpec.PushCount | src/ring.rs:24-28 | One append raises the appended tag's count by one, leaves every other tag's count alone, and adds one node. |
| RingSpec.PlacedCounts | src/ring.rs:21-30 | The add loop raises the tag's count by the number of positions visited. Other tags keep their counts. The node count grows by the same number. |
| RingSpec.PlacedBucket | src/ring.rs:21-30 | A tag in a bucket after the add loop was already there, or is the added tag at one of its own positions. |
| RingSpec.PlacedConsistent | src/ring.rs:19-30 | Inserting the item, then placing the tag at all of its replicas, keeps the ring invariant and keeps every bucket non-empty. |
| RingSpec.Filter | src/ring.rs:42 | `retain(x != tag)`: the tag is gone and every other element is kept. The multiset loses exactly the tag's copies, and a bucket without the tag is unchanged. |
| RingSpec.FilterKeepsOrder | src/ring.rs:42 | The filtered bucket keeps the surviving tags in their original relative order. |
| RingSpec.Strip | src/ring.rs:40-45 | One step of the remove loop: the bucket at a present key is filtered and an absent key is skipped. The key set is unchanged and the tag is no longer in that bucket. |
| RingSpec.Removed | src/ring.rs:37-46 | Defines the bucket table after the remove loop has visited the positions `ps` in order, one `Strip` per position. |
| RingSpec.RemovedShape | src/ring.rs:37-46 | The remove loop keeps every key. It filters exactly the buckets at the visited positions and skips absent keys. |
| RingSpec.StripOther | src/ring.rs:40-45 | Filtering one bucket leaves every other tag's count unchanged. |
| RingSpec.StripSize | src/ring.rs:40-45 | Filtering one bucket removes exactly as many nodes as copies of the tag it deletes. |
| RingSpec.RemovedCounts | src/ring.rs:37-46 | The remove loop keeps every other tag's count. The node count falls by the number of copies of the tag deleted. |
| RingSpec.RemovedBucket | src/ring.rs:37-46 | A bucket after removal existed before, lacks the tag, and holds only tags it held before. |
| RingSpec.RemovedAll | src/ring.rs:35-48 | On a consistent ring, removal keeps the invariant and the key set, and leaves the tag in no bucket. The tag's count drops to 0 and the node count falls by exactly its old count. |
| RingSpec.EmptiedBuckets | src/ring.rs:35-48 | When the ring's only tag has been removed, every remaining bucket is empty. |
| RingSpec.KeysFrom | src/ring.rs:53 | The keys at or above `lo`, strictly ascending, each in range and each a key of the map (both directions). |
| RingSpec.SortedKeys | src/ring.rs:53 | The `BTreeMap` iteration order: every key exactly once, ascending. |
| RingSpec.OrderedKeys | src/ring.rs:53 | The iteration order as the selection loops obtain it, with the same enumeration guarantee. It exists so that only that guarantee, not the unfolding of `SortedKeys`, enters their proofs. |
| RingSpec.EnumeratedBounds | src/ring.rs:53 | In a non-empty map's ascending key list, the first and last entries bound every key. |
| RingSpec.KeyBounds | src/ring.rs:53 | A non-empty in-range map has a least and a greatest key. |
| RingSpec.MinKey | src/ring.rs:53-54 | The first bucket the walk visits: a key no larger than any other. |
| RingSpec.MaxKey | src/ring.rs:53-54 | The last bucket the walk visits: a key no smaller than any other. |
| RingSpec.EnumeratedEnds | src/ring.rs:53 | The ascending key list starts at the least key and ends at the greatest. |
| RingSpec.TruncRem | src/ring.rs:56 | Rust's truncating `%` on `i32`: the magnitude stays below the divisor, it agrees with the Euclidean remainder for non-negative dividends, and it is never positive for negative ones. |
| RingSpec.TruncRemOdd | src/ring.rs:56 | Negating the dividend negates the truncating remainder. |
| RingSpec.Faulty | src/ring.rs:55-56 | Defines when a pick from a bucket panics: an empty bucket (`index % 0`) or a negative truncated remainder (the `as usize` cast). A non-empty bucket with a non-negative index never panics. |
| RingSpec.Reason | src/ring.rs:55-56 | Defines which of the two panics a faulty bucket raises: `RemainderByZero` for an empty bucket, `IndexOutOfBounds` otherwise. |
| RingSpec.Touched | src/ring.rs:54 | Defines the keys at which the loop computes a candidate: the first key, and every key above `index`. |
| RingSpec.Pick | src/ring.rs:56 | On a bucket that does not abort, the element picked belongs to that bucket. |
| RingSpec.Chosen | src/ring.rs:53-58 | The bucket the as-written walk ends on: the greatest key if it is above `index`, else the least key. It is always a key the walk takes a candidate from. |
| RingSpec.LastTouched | src/ring.rs:53-57 | The loop's candidate `tag` after the first `j` sorted keys: one of those keys, either the first key or one above `index`. |
| RingSpec.Lookup | src/ring.rs:59-60 | Defines the final `map.get(tag)`: the tag's item if it has one, else nothing. |
| RingSpec.WalkStep | src/ring.rs:53-57 | One more key visited by the as-written walk without an abort keeps the visited prefix free of aborting buckets. The candidate moves to that key exactly when the key is the first one or lies above `index`. |
| RingSpec.FirstFault | src/ring.rs:53-57 | If the walk aborts at a key, that key is the first bucket it touches that aborts. |
| RingSpec.WalkCompleted | src/ring.rs:53-58 | If the walk finishes, no touched bucket aborts and the last candidate comes from `Chosen`. |
| RingSpec.NearestAbove | src/ring.rs:53-54 | In the corrected walk, the first occupied key at or above `index` is the nearest successor. |
| RingSpec.NearestWrapped | src/ring.rs:53-54 | In the corrected walk, with no occupied key at or above `index`, the least occupied key is the nearest one. |
| RingSpec.NearestStep | src/ring.rs:53-54 | One more key visited by the corrected walk without returning keeps its three loop facts: the buckets seen at or above `index` are empty, and the least occupied key seen so far is remembered (or all buckets seen are empty). |
| RingSpec.NoneOccupied | src/ring.rs:53 | If the corrected walk meets no occupied key, every bucket of the ring is empty. |
| RingSpec.NearestIncludesIndex | src/ring.rs:53-54 | The corrected rule includes a bucket sitting exactly at `index`. With buckets at 10 and 20, index 10 picks 10 and index 20 picks 20. |
| RingSpec.SelectSkipsNearestSuccessor | src/ring.rs:53-58 | With buckets at 10 and 20 and index 5, the as-written walk ends on 20, but the nearest successor is 10. |
| HashRing.Ring.constructor | src/ring.rs:74-81 | `Default`: both tables are empty, the invariant holds and there are no nodes. |
| HashRing.Ring.AddItem | src/ring.rs:15-32 | A duplicate tag gives `Fail(TagExists)` and nothing changes. Otherwise it passes: `table[tag] == item`, and `link` is the add loop over the tag's replicas. Every replica key is present, and old keys stay with their old buckets as prefixes. The tag gains exactly 100 occurrences, the other tags none, and the node count grows by 100. The invariant holds, and so does "no empty bucket" if it held before. |
| HashRing.Ring.RemoveItem | src/ring.rs:35-48 | Always `Pass` with `table` unchanged. `link` is the remove loop over the replicas, and the key set is unchanged. The tag is in no bucket and its count is 0. Each bucket is a subsequence of its old contents. Other tags keep their counts, and the node count falls by the tag's old count. |
| HashRing.Ring.Select | src/ring.rs:51-63 | An empty ring gives `None`. A walk that touches an aborting bucket gives the panic of the first such bucket. Otherwise the result is the item of the element picked from the `Chosen` bucket. The ring is not modified. |
| HashRing.Ring.SelectNearest | src/ring.rs:51-63 | Corrected selection. `None` exactly when every bucket is empty. Otherwise it gives the item at the Euclidean remainder inside the first occupied bucket at or above `index`, wrapping to the least occupied bucket. |
| RingScenarios.AddOneItem | src/ring.rs:94-102 | One item on an empty ring gives exactly 100 nodes. |
| RingScenarios.OneItemRing | src/ring.rs:94-96 | A fresh ring with one item has 100 nodes, a non-empty `link` and no empty bucket. |
| RingScenarios.AddThenRemove | src/ring.rs:105-124 | Adding a new tag, then removing it, restores the node count and leaves the tag on no node. |
| RingScenarios.AddTwoRemoveOne | src/ring.rs:105-124 | After adding "tag:1" and "tag:2" and removing "tag:2", there are 100 nodes and "tag:2" is on none of them. |
| RingScenarios.TwoItemRing | src/ring.rs:127-130 | Two items give a non-empty ring with no empty bucket and the expected item table. |
| RingScenarios.SelectOnFullRing | src/ring.rs:127-141 | With no empty bucket and a non-negative index, `select` does not abort and returns an item of the table, namely the one picked from `Chosen`. |
| RingScenarios.SelectTwice | src/ring.rs:127-141 | Selecting 4567 twice, then 65535 twice, gives equal results for each pair, each of them 1 or 2. |
| RingScenarios.AddAfterRemove | src/ring.rs:15-19 | A removed tag keeps its item-table entry, so adding it again fails with `TagExists`. |
| RingScenarios.RemoveOnlyTag | src/ring.rs:35-48 | Removing the only tag keeps the key set of `link` unchanged and empties every bucket. |
| RingScenarios.EmptiedRing | src/ring.rs:35-48 | Add then remove the only item: a non-empty `link` whose buckets are all empty. |
| RingScenarios.SelectAfterRemovingAll | src/ring.rs:55-56 | On that ring, `select` always divides by a zero bucket length. |
| RingScenarios.SelectNegativeIndex | src/ring.rs:55-56 | If a negative index has a non-zero truncated remainder modulo the first bucket's length, `select` indexes out of bounds. |

## Left out

- The internals of Rust's `DefaultHasher` (SipHash). The raw 64-bit hash of a string is the constructor parameter `hasher: string -> u64`. The reduction `% 65535` is kept.
- The implementations of `BTreeMap` and `HashMap`. They are Dafny maps. `BTreeMap` iteration is the ascending key list returned by `OrderedKeys`.
- The `anyhow` error value and its message text. A duplicate tag is `Fail(TagExists)`.
- Rust ownership and borrowing. `select` returns the item itself rather than a reference into the table.
- Panics. The aborts of `select` (a remainder by zero, and an index out of range after the cast to `usize`) are error results `Err(RemainderByZero)` and `Err(IndexOutOfBounds)`, not process aborts.
- HashRing.Ring.Select: does not model the wrap of `len as i32` for buckets longer than 2^31 - 1, or the overflow of `i32::MIN % -1`. Bucket lengths are unbounded naturals.
- HashRing.Ring.AddItem: states the exact per-bucket contents only through `link == Placed(...)` together with the lemma `PlacedShape`. It is not restated key by key in the method's own contract.
- The trivial test `it_works`.
- Concurrency. The crate has none.

## Findings

| source | as written | input that shows it | evidently intended | confidence | as-written member | corrected member |
|---|---|---|---|---|---|---|
| src/ring.rs:53-57 | The walk overwrites its candidate at every key above `index`, so it ends on the greatest key rather than the nearest successor. | buckets at positions 10 and 20, `index` 5: ends on 20 | the first occupied bucket at or above `index`, wrapping to the first occupied bucket | high (proved; not executed) | RingSpec.SelectSkipsNearestSuccessor | HashRing.Ring.SelectNearest |
| src/ring.rs:42, src/ring.rs:55-56 | `remove_item` leaves empty buckets under their keys, and `select` then computes `index % 0`. | add "a", remove "a", then `select` at any index | empty buckets skipped (or removed) | high (proved; not executed) | RingScenarios.SelectAfterRemovingAll | HashRing.Ring.SelectNearest |
| src/ring.rs:56 | A negative `index` gives a negative truncated remainder, which is out of range once cast to `usize`. | a negative `index` not divisible by the first bucket's length, e.g. -1 when the first bucket holds two tags | a non-negative (Euclidean) remainder | high (proved; not executed) | RingScenarios.SelectNegativeIndex | HashRing.Ring.SelectNearest |
