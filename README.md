# ADS_set, phase 1: a separate-chaining hash set

This project models the first phase of `ADS_set<Key, N>` (`ADS_set.h`). The type is a hash set that uses separate chaining. Its state is:

- `sz`: the number of keys stored;
- `max_sz`: the number of buckets;
- `array_ll`: an array of buckets, each heading a singly linked chain of nodes.

Inserting a key pushes a new node onto the head of its bucket's chain, so each chain lists its keys newest first. After each new key, the table checks its load factor. When that check fires, the table doubles its bucket array and re-inserts every key.

The model has two modules:

- `Chains` (`chains.dfy`) describes the bucket table as a value. A table is a `seq<seq<Key>>`, one chain per bucket, newest first. The module defines:
  - the functions the table is specified by: `Slot`, `Flatten`, `Push`, `PushAll`, `Rehash`, `LoadFactor`, `AddAll` and `NewCount`;
  - the lemmas about them.
- `HashTable` (`ads_set.dfy`) holds the class `AdsSet`. Its fields are `sz`, `maxSz` and `buckets: array<seq<Key>>`. The bucket array is updated in place, as `array_ll` is. Nodes and `next` pointers appear as the chain sequences themselves. Two invariants are defined:
  - `Consistent()` holds inside an operation. One bucket exists per slot, every key sits in bucket `hash(key) % maxSz`, and `sz` is the total chain length.
  - `Valid()` holds between public operations. It adds that no key is stored twice and that `sz < maxSz`.

The hash is a constructor parameter `hash: Key -> nat`. The model never looks inside it. The non-type template parameter `size_t N = 7` is the constructor's argument `n`. Key equality is Dafny's `==`.

**The growth threshold.** `check_load_factor` multiplies by 100 and compares the result against 70 (`ADS_set.h:76-77`). That suggests a 70 percent threshold was meant. But `sz/max_sz` is divided first, in integer arithmetic. The value is therefore 0 while `sz < max_sz` and at least 100 once `sz >= max_sz`, so the table grows only when it is completely full. The model follows the code:

- `Chains.LoadFactor` proves that `LoadFactor(sz, maxSz) > 70` holds exactly when `sz >= maxSz`.
- `HashTable.AdsSet.InsertKey` states where this takes effect. A new key grows the table exactly when the new `sz` reaches `maxSz`. So in a table of 7 buckets the sixth key (6/7, about 86 percent full) leaves the table as it is, and the seventh key doubles it to 14 buckets.

## Model

| member | source | states |
|---|---|---|
| HashTable.AdsSet.constructor | ADS_set.h:83-88 | The new table has `sz == 0`, `maxSz == n` and every bucket empty, and it satisfies the table invariant. It requires `n >= 1`, since `count` and `insert_hash` reduce modulo `max_sz`. |
| HashTable.AdsSet.FromRange | ADS_set.h:90-94 | The table built from a range or an initializer list satisfies the invariant. It holds exactly the keys of the range, and `sz` is their number of distinct keys. |
| HashTable.AdsSet.InsertHash | ADS_set.h:32-43 | Chaining insert without a duplicate check. The key becomes the head of bucket `hash(v) % maxSz` and that chain's old contents follow it. Every other bucket and `maxSz` are unchanged, and `sz` increases by 1. The stored multiset gains exactly `v`. Placement by hash is preserved, and repeat-freedom is preserved when `v` is new. |
| HashTable.AdsSet.CollectKeys | ADS_set.h:50-61 | The first loop of `resize`. The keys are copied bucket by bucket, chain order within each, into a fresh buffer of `maxSz` slots. `ind` never exceeds the buffer, and at the end it equals `sz`. The buffer's first `ind` entries are exactly the flattened table. |
| HashTable.AdsSet.InsertEach | ADS_set.h:68-70 | The second loop of `resize`. The collected keys are chained into the new array in order. The result is `PushAll` of the keys over the starting table, and `sz` grows by their number. |
| HashTable.AdsSet.Resize | ADS_set.h:46-72 | The bucket array is a fresh one of `2 * maxSz` buckets, and `sz` is unchanged. The new table equals `Rehash` of the old one. The stored multiset and set of keys are unchanged, every key sits in its bucket for the new count, and no key is repeated. |
| HashTable.AdsSet.CheckLoadFactor | ADS_set.h:75-80 | The table grows, to `Rehash` of the old table with twice the buckets, exactly when `sz >= maxSz`. Otherwise the bucket array and its contents are untouched. The stored keys and `sz` are always kept, and the invariant, with `sz < maxSz`, holds afterwards. |
| Chains.LoadFactor | ADS_set.h:76-77 | `100 * (sz / maxSz)` with integer division. It is 0 below a full table and at least 100 at or above one. It exceeds 70 exactly when `sz >= maxSz`. |
| HashTable.AdsSet.Size | ADS_set.h:96-98 | `sz` is the number of distinct stored keys and the total length of the chains. |
| HashTable.AdsSet.Empty | ADS_set.h:100-102 | True exactly when the set holds no key, and exactly when every bucket's chain is empty. |
| HashTable.AdsSet.Count | ADS_set.h:119-131 | The result is 0 or 1. It is 1 exactly when `v` occurs in the chain of bucket `hash(v) % maxSz`, and exactly when `v` is stored. It changes nothing. |
| HashTable.AdsSet.InsertKey | ADS_set.h:110-116 | One step of the range insert. A key already present (`count` is 1) leaves the table as it was. A new key is chained in. If the new `sz` reaches `maxSz`, the table becomes `Rehash` of the pushed table and `maxSz` doubles. Otherwise the bucket array is the same one, `maxSz` is kept, and the table is exactly the old one with `v` pushed. `sz` grows by 1 for a new key only, and the invariant holds afterwards. |
| HashTable.AdsSet.Insert | ADS_set.h:104-117 | The range (and initializer-list) insert preserves the invariant. Afterwards the set holds the old keys plus the keys of the range, so `count` is 1 for every key of the range. `sz` grows by exactly the number of distinct range keys that were absent. A range of keys all present changes nothing. |
| Chains.Slot | ADS_set.h:35 | A key's bucket, `hash(v) % m`, is below the bucket count `m`. |
| Chains.PushKeys | ADS_set.h:39-42 | One chaining insert adds exactly its key to the stored multiset. |
| Chains.PushHashed | ADS_set.h:35-40 | One chaining insert keeps every key in the bucket its hash selects. |
| Chains.PushAllKeys | ADS_set.h:68-70 | A run of chaining inserts adds exactly the run's keys, with multiplicity. |
| Chains.PushAllHashed | ADS_set.h:68-70 | A run of chaining inserts keeps every key in its hashed bucket. |
| Chains.RehashKeys | ADS_set.h:46-72 | Growth keeps the stored multiset of keys. |
| Chains.RehashHashed | ADS_set.h:46-72 | After growth, every key sits in bucket `hash(key) % (2 * old bucket count)`. |
| Chains.RehashSound | ADS_set.h:46-72 | Growth keeps the placement invariant, the multiset and the set of keys, and repeat-freedom in both directions. |
| Chains.RehashFinds | ADS_set.h:46-72 | Read with `count`'s lookup: a key is found in its new bucket after growth exactly when it was found in its old bucket before. |
| Chains.HashedMember | ADS_set.h:119-131 | In a table with hashed placement, a key is stored anywhere exactly when its own bucket's chain holds it. This is why `count` looks in one chain only. |
| Chains.FlattenMember | ADS_set.h:53-61 | A key is among the collected keys exactly when some bucket's chain holds it. |
| Chains.FlattenNil | ADS_set.h:100-102 | The table holds no key exactly when every chain is empty. |
| Chains.DistinctCard | ADS_set.h:96-98 | Without repeats, the number of distinct keys equals the total chain length, which is what `sz` counts. |
| Chains.AddAllIsUnion | ADS_set.h:108-117 | Inserting a range key by key, skipping keys present, stores exactly the union of the old keys and the range's keys. |
| Chains.NewCountIsCard | ADS_set.h:108-117 | The number of keys the range insert actually adds is the number of range keys absent beforehand. |
| Chains.NoNewCount | ADS_set.h:111 | A range whose keys are all present adds nothing. |

## Left out

- The output of `dump` (`ADS_set.h:133-150`) is left out: it is diagnostic printing to a stream.
- Node allocation and deallocation are not modelled. This covers `new Node`, `delete`, `delete[]` and the `Node` destructor (`ADS_set.h:157-166`). A chain is a value, and memory is managed by Dafny.
- `std::hash` is outside the model. The hash is a constructor parameter, an arbitrary function `Key -> nat`.
- `std::equal_to` is replaced by Dafny's `==`.
- `size_t` arithmetic is modelled with unbounded naturals. Only `2*max_sz` in `resize` could wrap, and only when `max_sz >= 2^63`; that wrap-around is not modelled. `100*(sz/max_sz)` cannot wrap. `check_load_factor` runs only right after one `insert_hash` from a table with `sz < max_sz` (`ADS_set.h:113-114`), so `sz/max_sz` is 0 or 1. `CheckLoadFactor`'s precondition `sz <= maxSz` states this.
- Iterator ranges `[first, last)` and `std::initializer_list` are modelled as a `seq<Key>`, in iteration order.
- Phase 2 (`ADS_set.h:152-153`) has no code in the source. The nested `Iterator` class is only declared (`ADS_set.h:14`), and `find`, `erase`, `clear`, `swap` and the comparison operators do not exist in the source, so none of them is modelled.
- The loops of `resize` are two methods, `CollectKeys` and `InsertEach`. `Resize` calls them. The behaviour is the same as the single function in the source.
- The step of the range insert is a method of its own, `InsertKey`.
- `HashTable.AdsSet.Insert`: states the stored keys and `sz` after the call, but not the exact bucket layout. The layout depends on which of the inserts triggered growth along the way.
- `HashTable.AdsSet.FromRange`: states the stored keys and `sz`, but not `maxSz` or the bucket layout, for the same reason.
