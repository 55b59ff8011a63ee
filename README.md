# Verified model of three JDK cores

This project models three pieces of the Java class library in Dafny and proves what they promise.

**The segmented `java.util.concurrent.ConcurrentHashMap` (JDK 7 design), taken as a sequential state machine.**
- `MapSizing` holds the arithmetic:
  - the supplemental hash;
  - the constructor's rounding of the concurrency level and per-segment capacity to powers of two;
  - the segment and bucket indices;
  - thresholds derived from the load factor.
- `Segments` holds the `Segment` class. Its bucket array (`array<seq<HashEntry>>`), `count`, `modCount` and `threshold` are updated in place by `put`, `rehash`, `remove`, the two `replace` forms and `clear`.
- `ConcurrentHashMaps` holds the map class:
  - the segment directory, with `ensureSegment`;
  - dispatch for `get`, `containsKey`, `put`, `putIfAbsent`, `remove`, `replace` and `clear`;
  - the aggregate reads `isEmpty`, `size` and `containsValue`.
  Every operation is proved against the map's abstract contents: the union of the segments' key→value maps.
  The map's invariant also keeps every installed segment's threshold at `(int)(table length × load factor)`.
- `MapIterators` holds `HashIterator`. Its cursor fields walk the segments, then each table's buckets, from last to first. It is proved to return exactly the entries of a ghost traversal sequence, and that sequence is proved sound and complete for the map.

**`java.lang.ThreadLocal.ThreadLocalMap`.** An open-addressed table with linear probing and weak keys. A key the collector has cleared reads `None`; the entry holding it is "stale".
- `ThreadLocalTables` states the probing invariant on the slot sequence: between a live entry's home slot and its actual slot, no slot is null. It also proves the facts about single-slot updates.
- `ThreadLocalMaps` holds the `ThreadLocalMap` class:
  - both constructors;
  - `getEntry`, `set` and `remove`;
  - `replaceStaleEntry`, `expungeStaleEntry` (the deletion scheme of Knuth, *The Art of Computer Programming*, vol. 3, section 6.4, Algorithm R) and `cleanSomeSlots`;
  - `rehash`, `resize` and `expungeStaleEntries`.
  Each is proved to keep the invariant and to have the stated effect on the live mappings.

**Small helpers of `java.lang.Class`** (`ClassHelpers`):
- the `MethodArray` growable array;
- `arrayContentsEq`;
- the string logic of `resolveName`;
- the `$digits` stripping of `getSimpleName`;
- `isAsciiDigit`;
- `argumentTypesToString`.

`Common` holds what the modules share:
- `Option`, `Result` and the error kinds (`NullPointer`, `IllegalArgument`, `IllegalState`, `NoSuchElement`, `IndexOutOfBounds`, `MalformedName`), which stand for the exceptions the source throws;
- powers of two;
- Java `int` wrap-around;
- the bucket index `(len - 1) & h`, written `h mod len` for power-of-two `len`.

## Model

| member | source | states |
|---|---|---|
| Common.Wrap32 | java/util/concurrent/ConcurrentHashMap.java:872 | The Java `int` that a mathematical integer wraps to: it is in int range, it is congruent to the input modulo 2^32, and it is the input itself when that fits |
| Common.BucketIndex | java/util/concurrent/ConcurrentHashMap.java:369 | The bucket `(tab.length - 1) & hash` lies within the table |
| MapSizing.SpreadSamples | java/util/concurrent/ConcurrentHashMap.java:280-296 | The Wang/Jenkins mixer, with hashSeed 0, maps hash codes 0, 1 and 0x12345678 to 0xa78baef2, 0x4b439d4a and 0xfda9eab3 |
| MapSizing.Threshold | java/util/concurrent/ConcurrentHashMap.java:759 | `(int)(cap * loadFactor)` is the floor of cap·lf, saturated into [0, Integer.MAX_VALUE] |
| MapSizing.SegmentIndex | java/util/concurrent/ConcurrentHashMap.java:1032 | The segment `(hash >>> segmentShift) & segmentMask` lies in [0, ssize) |
| MapSizing.SegmentCount | java/util/concurrent/ConcurrentHashMap.java:721-730 | ssize = 2^sshift is the least power of two ≥ the concurrency level, is at most 2^16, and sshift ≤ 16 |
| MapSizing.SegmentCapacity | java/util/concurrent/ConcurrentHashMap.java:746-748 | cap is the least power of two ≥ max(2, c), and stays within MAXIMUM_CAPACITY |
| MapSizing.CeilingDivision | java/util/concurrent/ConcurrentHashMap.java:742-744 | c is the ceiling of initialCapacity / ssize |
| MapSizing.CapacityFits | java/util/concurrent/ConcurrentHashMap.java:742-748 | cap·ssize ≥ the clamped initial capacity; cap is 2, or halving it would no longer cover that capacity |
| MapSizing.ComputeSizing | java/util/concurrent/ConcurrentHashMap.java:717-763 | IllegalArgument iff the load factor is not positive, initialCapacity < 0 or concurrencyLevel ≤ 0. Otherwise ssize is the least power of two ≥ min(level, 2^16), segmentShift = 32 − sshift, segmentMask = ssize − 1, and cap is a power of two ≥ 2 with cap·ssize ≥ min(initialCapacity, 2^30) |
| Segments.EmptyTable | java/util/concurrent/ConcurrentHashMap.java:354-358 | A table of empty buckets represents the empty map |
| Segments.ChainLookup | java/util/concurrent/ConcurrentHashMap.java:369-383 | Scanning k's bucket, the first node with key k carries k's value, and a present key is always found in that bucket |
| Segments.BucketNodes | java/util/concurrent/ConcurrentHashMap.java:369 | Each node of bucket i has hash index i, has a mapped key, and keys within a bucket are distinct |
| Segments.InsertAtHead | java/util/concurrent/ConcurrentHashMap.java:383-397 | Prepending a new node for an absent key to its bucket represents the map extended with that key |
| Segments.UpdateInPlace | java/util/concurrent/ConcurrentHashMap.java:374-378 | Overwriting the value of the node holding k represents the map with k updated |
| Segments.RemoveNode | java/util/concurrent/ConcurrentHashMap.java:542-575 | Unlinking node j of bucket i represents the map without that node's key, one mapping smaller |
| Segments.SplitTargets | java/util/concurrent/ConcurrentHashMap.java:425-433 | On doubling, a hash's new bucket is its old bucket i or i + oldCapacity |
| Segments.SplitRepresents | java/util/concurrent/ConcurrentHashMap.java:429-459 | A doubled table whose every bucket is the split of its old bucket represents the same map |
| Segments.DoubledCapacity | java/util/concurrent/ConcurrentHashMap.java:391-426 | A power-of-two capacity below MAXIMUM_CAPACITY doubles to a power of two within it |
| Segments.SingleNodeSplit | java/util/concurrent/ConcurrentHashMap.java:434-435 | A single-node bucket moves whole to its new index |
| Segments.ClonedStart | java/util/concurrent/ConcurrentHashMap.java:437-448 | Placing the reused trailing run at lastIdx starts a correct split |
| Segments.ClonedStepHit | java/util/concurrent/ConcurrentHashMap.java:450-456 | Cloning a node before the run onto the head of its new bucket keeps the split correct |
| Segments.ClonedStepMiss | java/util/concurrent/ConcurrentHashMap.java:450-456 | A node that goes to the other bucket leaves this bucket's split correct |
| Segments.ClonedComplete | java/util/concurrent/ConcurrentHashMap.java:437-456 | Once every node before the run is cloned, the new bucket holds exactly the old bucket's nodes for that index |
| Segments.NodeHasValue | java/util/concurrent/ConcurrentHashMap.java:978-984 | A node holding v means the segment maps some key to v |
| Segments.NoNodeHasValue | java/util/concurrent/ConcurrentHashMap.java:978-984 | If no node holds v, the segment maps no key to v |
| Segments.FindValue | java/util/concurrent/ConcurrentHashMap.java:978-984 | Returns the first position in a chain holding v, or the chain's length when none does |
| Segments.FindKey | java/util/concurrent/ConcurrentHashMap.java:371-382 | Returns the first position in a chain holding the key, or the chain's length when none does |
| Segments.Segment.constructor | java/util/concurrent/ConcurrentHashMap.java:354-358 | A new segment is empty, with the given load factor, threshold and table length |
| Segments.Segment.Put | java/util/concurrent/ConcurrentHashMap.java:360-406 | Returns the previous value (None if absent). The key maps to the new value unless it was present and onlyIfAbsent holds. count grows by 1 exactly when the key was new, and modCount grows except in the onlyIfAbsent-present case. The table doubles exactly when a new key takes count past threshold below MAXIMUM_CAPACITY; otherwise the table and threshold are unchanged |
| Segments.Segment.Rehash | java/util/concurrent/ConcurrentHashMap.java:412-464 | The new table is fresh and twice as long, still a power of two. It represents the old mappings plus the new node, with every node in bucket `hash & (newCap − 1)`. The threshold is recomputed, and the old table's buckets are not rewritten |
| Segments.Segment.SplitTable | java/util/concurrent/ConcurrentHashMap.java:427-459 | Every bucket b of the new table is the split of old bucket b mod oldCapacity |
| Segments.Segment.Reclassify | java/util/concurrent/ConcurrentHashMap.java:430-457 | One old bucket is split into its low and high halves |
| Segments.Segment.FindLastRun | java/util/concurrent/ConcurrentHashMap.java:437-447 | lastRun starts the longest suffix of the chain that goes to one new bucket, lastIdx. The node before it goes elsewhere |
| Segments.Segment.CloneBeforeRun | java/util/concurrent/ConcurrentHashMap.java:450-456 | The nodes before lastRun are all distributed to their new buckets |
| Segments.Segment.Remove | java/util/concurrent/ConcurrentHashMap.java:542-575 | The key is unlinked iff present and (no expected value, or the value equals it). On removal it returns the old value, and count drops by 1 and modCount grows by 1; otherwise it returns None and nothing changes. Other buckets are untouched |
| Segments.Segment.Replace | java/util/concurrent/ConcurrentHashMap.java:577-599 | Returns true iff the key maps to oldValue, and then maps it to newValue and bumps modCount. count never changes, and other buckets are untouched |
| Segments.Segment.ReplaceValue | java/util/concurrent/ConcurrentHashMap.java:601-621 | Returns the previous value. Only an existing key is updated, never inserted, and count never changes |
| Segments.Segment.Clear | java/util/concurrent/ConcurrentHashMap.java:623-634 | Every bucket becomes empty, count is 0 and modCount grows by 1 |
| ConcurrentHashMaps.UnionLookup | java/util/concurrent/ConcurrentHashMap.java:898-915 | Looking a key up in the whole map is looking it up in the segment its hash selects |
| ConcurrentHashMaps.UnionSize | java/util/concurrent/ConcurrentHashMap.java:867-875 | The number of mappings is the sum of the segments' sizes |
| ConcurrentHashMaps.UnionAssign | java/util/concurrent/ConcurrentHashMap.java:1042-1046 | Updating key k in its own segment updates k in the whole map and keeps ownership |
| ConcurrentHashMaps.UnionDelete | java/util/concurrent/ConcurrentHashMap.java:1090-1094 | Deleting k from its own segment deletes k from the whole map |
| ConcurrentHashMaps.UnionReplace | java/util/concurrent/ConcurrentHashMap.java:1138-1145 | Replacing one segment's map changes lookups only for the keys that segment owns |
| ConcurrentHashMaps.UnionNonEmpty | java/util/concurrent/ConcurrentHashMap.java:811-841 | A non-empty segment makes the map non-empty |
| ConcurrentHashMaps.UnionOfEmpty | java/util/concurrent/ConcurrentHashMap.java:811-841 | All segments empty makes the map empty |
| ConcurrentHashMaps.UnionHasValue | java/util/concurrent/ConcurrentHashMap.java:952-997 | The map maps some key to v iff some segment does |
| ConcurrentHashMaps.CountStepAdds | java/util/concurrent/ConcurrentHashMap.java:871-873 | The wrapping `size += c` with its overflow flag tracks the exact total: the flag is raised exactly when the total passes Integer.MAX_VALUE |
| ConcurrentHashMaps.BucketsDownMember | java/util/concurrent/ConcurrentHashMap.java:1234-1247 | The walk down from bucket i meets exactly the nodes of buckets 0..i |
| ConcurrentHashMaps.ConcurrentHashMap.SegmentFor | java/util/concurrent/ConcurrentHashMap.java:691-694 | The segment index of a hash lies within the directory |
| ConcurrentHashMaps.ConcurrentHashMap.constructor | java/util/concurrent/ConcurrentHashMap.java:756-762 | The map starts empty with ssize slots. Segment 0 is installed with the computed capacity, threshold and load factor, and every other slot is null (`OnlyFirstSegment`) |
| ConcurrentHashMaps.ConcurrentHashMap.Create | java/util/concurrent/ConcurrentHashMap.java:717-763 | IllegalArgument iff the arguments are illegal. Otherwise an empty map sized as ComputeSizing says, with only segment 0 installed |
| ConcurrentHashMaps.ConcurrentHashMap.CreateDefault | java/util/concurrent/ConcurrentHashMap.java:790-792 | The no-argument constructor: capacity 16, load factor 3/4, concurrency level 16 |
| ConcurrentHashMaps.ConcurrentHashMap.CreateWithCapacity | java/util/concurrent/ConcurrentHashMap.java:773-775 | The two-argument constructor, whose concurrency level is 16 |
| ConcurrentHashMaps.ConcurrentHashMap.EnsureSegment | java/util/concurrent/ConcurrentHashMap.java:658-683 | Idempotent. It returns the installed segment if there is one and changes nothing. Otherwise it installs a fresh empty segment with segment 0's table length and load factor, and leaves every other slot untouched. The contents stay the same |
| ConcurrentHashMaps.ConcurrentHashMap.Get | java/util/concurrent/ConcurrentHashMap.java:898-915 | Returns the value mapped to the key, or None |
| ConcurrentHashMaps.ConcurrentHashMap.ContainsKey | java/util/concurrent/ConcurrentHashMap.java:925-942 | True iff the key is mapped |
| ConcurrentHashMaps.ConcurrentHashMap.SegmentForPut | java/util/concurrent/ConcurrentHashMap.java:1031-1044 | Yields the segment the key's hash selects, installing it if needed, without changing contents |
| ConcurrentHashMaps.ConcurrentHashMap.Put | java/util/concurrent/ConcurrentHashMap.java:1025-1047 | A null value gives NullPointer and no change. Otherwise it returns the previous value and the key maps to the new value; no other key changes |
| ConcurrentHashMaps.ConcurrentHashMap.PutIfAbsent | java/util/concurrent/ConcurrentHashMap.java:1057-1068 | A null value gives NullPointer. Otherwise it returns the previous value and inserts only when the key was absent |
| ConcurrentHashMaps.ConcurrentHashMap.PutInSegment | java/util/concurrent/ConcurrentHashMap.java:1031-1046 | The map-level effect of a segment put |
| ConcurrentHashMaps.ConcurrentHashMap.PutInExisting | java/util/concurrent/ConcurrentHashMap.java:1046 | Only the selected segment's map changes, as Segment.Put says |
| ConcurrentHashMaps.ConcurrentHashMap.Remove | java/util/concurrent/ConcurrentHashMap.java:1090-1094 | Returns the previous value and removes the key |
| ConcurrentHashMaps.ConcurrentHashMap.RemoveMapping | java/util/concurrent/ConcurrentHashMap.java:1101-1105 | True iff a non-null value was given and the key mapped to it, in which case the key is removed. A null value gives false and no change |
| ConcurrentHashMaps.ConcurrentHashMap.RemoveFromSegment | java/util/concurrent/ConcurrentHashMap.java:1090-1105 | The map-level effect of a segment remove with optional expected value; a missing segment means no change |
| ConcurrentHashMaps.ConcurrentHashMap.RemoveInExisting | java/util/concurrent/ConcurrentHashMap.java:1090-1105 | Only the selected segment's map changes, as Segment.Remove says |
| ConcurrentHashMaps.ConcurrentHashMap.Replace | java/util/concurrent/ConcurrentHashMap.java:1112-1119 | A null old or new value gives NullPointer. Otherwise true iff the key mapped to oldValue, and then it maps to newValue |
| ConcurrentHashMaps.ConcurrentHashMap.ReplaceInExisting | java/util/concurrent/ConcurrentHashMap.java:1118 | Only the selected segment's map changes, as Segment.Replace says |
| ConcurrentHashMaps.ConcurrentHashMap.ReplaceValue | java/util/concurrent/ConcurrentHashMap.java:1127-1133 | A null value gives NullPointer. Otherwise it returns the previous value and updates only an existing key |
| ConcurrentHashMaps.ConcurrentHashMap.ReplaceValueInExisting | java/util/concurrent/ConcurrentHashMap.java:1132 | Only the selected segment's map changes, as Segment.ReplaceValue says |
| ConcurrentHashMaps.ConcurrentHashMap.Clear | java/util/concurrent/ConcurrentHashMap.java:1138-1145 | The map is empty afterwards |
| ConcurrentHashMaps.ConcurrentHashMap.ClearSlot | java/util/concurrent/ConcurrentHashMap.java:1141-1144 | Clearing one slot empties that segment's map only |
| ConcurrentHashMaps.ConcurrentHashMap.ModCountStep | java/util/concurrent/ConcurrentHashMap.java:819-836 | The modCount sum adds a present segment's modCount and skips a missing one |
| ConcurrentHashMaps.ConcurrentHashMap.IsEmpty | java/util/concurrent/ConcurrentHashMap.java:811-841 | True iff the map has no mappings |
| ConcurrentHashMaps.ConcurrentHashMap.RecheckPass | java/util/concurrent/ConcurrentHashMap.java:828-838 | The second pass finds a non-empty segment iff the map is non-empty, and otherwise takes the modCounts off the sum |
| ConcurrentHashMaps.ConcurrentHashMap.CountPass | java/util/concurrent/ConcurrentHashMap.java:864-875 | One sizing pass: sum is the modCount sum. When the counts fit in an int, overflow is raised iff the total passes Integer.MAX_VALUE, and otherwise size is the total |
| ConcurrentHashMaps.ConcurrentHashMap.Size | java/util/concurrent/ConcurrentHashMap.java:848-888 | The number of mappings when that fits in an int, and Integer.MAX_VALUE on overflow |
| ConcurrentHashMaps.ConcurrentHashMap.TraversalSound | java/util/concurrent/ConcurrentHashMap.java:1224-1257 | Every entry of the traversal from segment k down is a mapping of the map |
| ConcurrentHashMaps.ConcurrentHashMap.TraversalGrows | java/util/concurrent/ConcurrentHashMap.java:1234-1247 | Starting the walk at a higher segment meets everything a lower start meets |
| ConcurrentHashMaps.ConcurrentHashMap.EntryInSegment | java/util/concurrent/ConcurrentHashMap.java:1040-1046 | A mapped key's entry sits in a bucket of an installed segment |
| ConcurrentHashMaps.ConcurrentHashMap.TraversalComplete | java/util/concurrent/ConcurrentHashMap.java:1224-1257 | Every mapping of the map is met by the full traversal |
| ConcurrentHashMaps.ConcurrentHashMap.ValuePass | java/util/concurrent/ConcurrentHashMap.java:967-985 | One scan finds v iff the map maps some key to v, and otherwise sums the modCounts |
| ConcurrentHashMaps.ConcurrentHashMap.ContainsValue | java/util/concurrent/ConcurrentHashMap.java:952-997 | A null value gives NullPointer; otherwise true iff some key maps to the value |
| ConcurrentHashMaps.SegmentHasValue | java/util/concurrent/ConcurrentHashMap.java:972-984 | A segment scan finds v iff the segment maps some key to v |
| MapIterators.HashIterator.BucketStep | java/util/concurrent/ConcurrentHashMap.java:1236-1237 | Taking the next bucket as the current chain leaves the pending entries unchanged |
| MapIterators.HashIterator.DropHead | java/util/concurrent/ConcurrentHashMap.java:1249-1257 | The head of the pending sequence is the current node; dropping it leaves the rest |
| MapIterators.HashIterator.SegmentStep | java/util/concurrent/ConcurrentHashMap.java:1238-1245 | Moving to the next segment down, and to its last bucket when it exists, leaves the pending entries unchanged |
| MapIterators.HashIterator.constructor | java/util/concurrent/ConcurrentHashMap.java:1224-1228 | A new iterator has the whole traversal pending, from the last segment, and nothing returned |
| MapIterators.HashIterator.Advance | java/util/concurrent/ConcurrentHashMap.java:1234-1247 | Moves to the next non-null entry, or to the end, leaving the pending entries the same |
| MapIterators.HashIterator.TakeBucket | java/util/concurrent/ConcurrentHashMap.java:1236-1237 | One bucket step: the table index drops by 1 and the pending entries are unchanged |
| MapIterators.HashIterator.TakeSegment | java/util/concurrent/ConcurrentHashMap.java:1238-1245 | One segment step: the segment index drops by 1 and the pending entries are unchanged |
| MapIterators.HashIterator.NextEntry | java/util/concurrent/ConcurrentHashMap.java:1249-1257 | NoSuchElement iff nothing is pending. Otherwise it returns the first pending entry, the rest stays pending, and lastReturned is that entry |
| MapIterators.HashIterator.HasNext | java/util/concurrent/ConcurrentHashMap.java:1259-1265 | True iff an entry is still pending |
| MapIterators.HashIterator.Remove | java/util/concurrent/ConcurrentHashMap.java:1267-1272 | IllegalState and no change when nothing was returned. Otherwise it removes the last returned key from the map. lastReturned is cleared afterwards |
| MapIterators.IteratorCovers | java/util/concurrent/ConcurrentHashMap.java:1217-1273 | A new iterator's pending entries are all mappings of the map, and every mapping is among them |
| ThreadLocalTables.NextIndex | java/lang/ThreadLocal.java:270-272 | Stays in [0, len) and is i + 1 modulo len |
| ThreadLocalTables.PrevIndex | java/lang/ThreadLocal.java:277-279 | Stays in [0, len) and is i − 1 modulo len |
| ThreadLocalTables.ProbeInverse | java/lang/ThreadLocal.java:270-279 | nextIndex and prevIndex are mutual inverses |
| ThreadLocalTables.MissedStep | java/lang/ThreadLocal.java:355-363 | Stepping past a non-null slot that does not hold the key keeps the probe short of wrapping home and the key unseen so far |
| ThreadLocalTables.Absent | java/lang/ThreadLocal.java:355-365 | A probe from the key's home slot that reaches null without meeting the key means the key is not mapped |
| ThreadLocalTables.EmptyTable | java/lang/ThreadLocal.java:286-288 | A table of nulls is a well-formed table of the empty map |
| ThreadLocalTables.InsertFree | java/lang/ThreadLocal.java:399-400 | Writing a new key into the first null slot of its probe keeps the table well formed for the extended map, with one more occupied slot |
| ThreadLocalTables.UpdateValue | java/lang/ThreadLocal.java:388-390 | Overwriting a live entry's value keeps the table well formed for the updated map |
| ThreadLocalTables.ClearKey | java/lang/ThreadLocal.java:415-416 | Clearing a live entry's key turns that entry stale and removes the key from the map |
| ThreadLocalTables.DropStale | java/lang/ThreadLocal.java:498-500 | Nulling a stale slot drops one occupied and one stale slot and keeps the mappings |
| ThreadLocalTables.MoveEntry | java/lang/ThreadLocal.java:514-520 | Moving a live entry to a null slot keeps keys distinct, the mappings and the counts |
| ThreadLocalTables.PutInStale | java/lang/ThreadLocal.java:477-478 | Writing a new key into a stale slot on its probe keeps the table well formed for the extended map, with one stale slot fewer |
| ThreadLocalTables.SwapIntoStale | java/lang/ThreadLocal.java:459-462 | Swapping the found entry, with its new value, into the earlier stale slot keeps the table well formed for the updated map |
| ThreadLocalTables.LiveCard | java/lang/ThreadLocal.java:253 | The number of mappings is the number of live entries |
| ThreadLocalTables.SizeSplit | java/lang/ThreadLocal.java:493-510 | The occupied slots are the mappings plus the stale entries |
| ThreadLocalTables.ExpungeStart | java/lang/ThreadLocal.java:497-500 | Nulling the stale slot starts the expunge scan at the next slot, with one occupied and one stale slot fewer |
| ThreadLocalTables.ExpungeDropStale | java/lang/ThreadLocal.java:507-510 | A stale entry met in the run is nulled and the scan goes on |
| ThreadLocalTables.ExpungeKeep | java/lang/ThreadLocal.java:512-513 | An entry already at its home slot stays put and the scan goes on |
| ThreadLocalTables.ExpungeMove | java/lang/ThreadLocal.java:513-521 | An entry away from home moves to the first null slot of its probe, and the scan goes on with the counts unchanged |
| ThreadLocalTables.ExpungeDone | java/lang/ThreadLocal.java:505-524 | At the null slot that ends the run the table is well formed again: no stale entry is left between the stale slot and the returned index, and the slots from the returned index on are as before |
| ThreadLocalTables.MissedAfterExpunge | java/lang/ThreadLocal.java:359-363 | After an expunge at the probe position, the slots passed so far still do not hold the key |
| ThreadLocalTables.BackStart | java/lang/ThreadLocal.java:443-444 | The backward scan starts at the slot before staleSlot |
| ThreadLocalTables.BackStep | java/lang/ThreadLocal.java:444-448 | Each backward step records the earliest stale slot seen and moves closer to a null slot |
| ThreadLocalTables.ForwardStart | java/lang/ThreadLocal.java:451 | The forward scan starts at the slot after staleSlot |
| ThreadLocalTables.ForwardStep | java/lang/ThreadLocal.java:451-473 | Each forward step records the first stale slot of the run when the backward scan found none |
| ThreadLocalTables.CopyStart | java/lang/ThreadLocal.java:570-576 | A fresh table of nulls starts the copy with nothing placed |
| ThreadLocalTables.CopyLive | java/lang/ThreadLocal.java:577-591 | Placing a live entry at the first null slot of its probe in the new table extends the copy by that mapping |
| ThreadLocalTables.CopySkip | java/lang/ThreadLocal.java:579-582 | A null or stale slot of the old table adds nothing to the copy |
| ThreadLocalTables.CopyDone | java/lang/ThreadLocal.java:570-596 | After the last old slot, the new table holds exactly the target mappings |
| ThreadLocalMaps.Threshold | java/lang/ThreadLocal.java:263-265 | `len * 2 / 3`: the largest count whose load stays within two thirds (3r ≤ 2len < 3r + 3) |
| ThreadLocalMaps.ThresholdBounds | java/lang/ThreadLocal.java:263-265 | For tables of at least 16 slots the threshold is below the length and grows when the table doubles |
| ThreadLocalMaps.FirstFree | java/lang/ThreadLocal.java:518-519 | Finds the first null slot on the probe from h |
| ThreadLocalMaps.PutAtFirstFree | java/lang/ThreadLocal.java:584-587 | Writes the entry into the first null slot of its probe; that is the only slot that changes |
| ThreadLocalMaps.CopySlot | java/lang/ThreadLocal.java:305-316 | Copies one old slot: a live entry (with its new value) goes to the first null slot of its probe, and the count of placed entries is kept |
| ThreadLocalMaps.CopyLiveEntries | java/lang/ThreadLocal.java:298-319 | The fresh table holds exactly the live mappings (values mapped through childValue, or unchanged for resize), with no stale entries, and the count of copied entries is its size |
| ThreadLocalMaps.ThreadLocalMap.constructor | java/lang/ThreadLocal.java:285-291 | A new map of 16 slots holds only the first key→value, with size 1 and threshold 10 |
| ThreadLocalMaps.ThreadLocalMap.Inherit | java/lang/ThreadLocal.java:298-319 | The child map has the parent's table length, holds every live parent key with its value passed through childValue, and size counts them |
| ThreadLocalMaps.ThreadLocalMap.GetEntry | java/lang/ThreadLocal.java:330-338 | Returns the entry of the key with its mapped value, or None when the key is not mapped. It may expunge stale entries, but never changes the mappings |
| ThreadLocalMaps.ThreadLocalMap.GetEntryAfterMiss | java/lang/ThreadLocal.java:348-366 | The same result when the home slot missed, expunging stale slots met on the way |
| ThreadLocalMaps.ThreadLocalMap.ProbeForSet | java/lang/ThreadLocal.java:383-397 | Stops at the key's slot, at a stale slot, or at a null slot, having passed only slots without the key |
| ThreadLocalMaps.ThreadLocalMap.Set | java/lang/ThreadLocal.java:374-403 | Afterwards the key maps to the value and every other key keeps its mapping, whether the key was present, absent or written over a stale slot |
| ThreadLocalMaps.ThreadLocalMap.ProbeForRemove | java/lang/ThreadLocal.java:411-415 | Stops at the key's slot or at the null slot that proves it absent |
| ThreadLocalMaps.ThreadLocalMap.Remove | java/lang/ThreadLocal.java:408-421 | Afterwards the key is unmapped, every other mapping is unchanged, and size does not grow |
| ThreadLocalMaps.ThreadLocalMap.Collect | java/lang/ThreadLocal.java:225-238 | The collector clearing a live key turns its entry stale and unmaps that key |
| ThreadLocalMaps.ThreadLocalMap.RunStart | java/lang/ThreadLocal.java:443-448 | The backward scan ends at a null slot and yields the earliest stale slot of the run before staleSlot |
| ThreadLocalMaps.ThreadLocalMap.RunScan | java/lang/ThreadLocal.java:451-474 | The forward scan stops at the key or at the null slot after the run, keeping the first stale slot to expunge |
| ThreadLocalMaps.ThreadLocalMap.SwapWithStale | java/lang/ThreadLocal.java:458-462 | The found entry gets the new value and trades places with the stale entry |
| ThreadLocalMaps.ThreadLocalMap.PutInStaleSlot | java/lang/ThreadLocal.java:477-478 | The new entry replaces the stale entry in its slot |
| ThreadLocalMaps.ThreadLocalMap.ReplaceStaleEntry | java/lang/ThreadLocal.java:435-483 | Afterwards the key maps to the value, every other mapping is unchanged, and size does not grow |
| ThreadLocalMaps.ThreadLocalMap.ExpungeAndClean | java/lang/ThreadLocal.java:481-482 | Expunging from a stale slot and then cleaning some slots strictly lowers size |
| ThreadLocalMaps.ThreadLocalMap.ExpungeStaleEntry | java/lang/ThreadLocal.java:493-525 | Clears staleSlot and returns the next null slot. No stale entry is left in between, and every surviving live entry is reachable from its home slot. Slots from the returned index on are untouched. size drops by exactly the stale entries removed |
| ThreadLocalMaps.ThreadLocalMap.RehashSlot | java/lang/ThreadLocal.java:506-522 | One slot of the expunge scan: a stale entry is dropped, or a live entry is moved to the first null slot of its probe. The scan's invariant carries on to the next slot, and size still counts the live entries plus the stale ones |
| ThreadLocalMaps.ThreadLocalMap.CleanSomeSlots | java/lang/ThreadLocal.java:540-554 | True iff at least one stale entry was removed, i.e. iff size dropped; when false the table is unchanged |
| ThreadLocalMaps.ThreadLocalMap.ExpungeStaleEntries | java/lang/ThreadLocal.java:601-609 | No stale entry is left, and size equals the number of mappings |
| ThreadLocalMaps.ThreadLocalMap.Rehash | java/lang/ThreadLocal.java:559-565 | The mappings are unchanged, and the table doubles iff, after expunging, size ≥ threshold − threshold/4 |
| ThreadLocalMaps.ThreadLocalMap.Resize | java/lang/ThreadLocal.java:570-596 | A fresh table of twice the length holds the same mappings, without stale entries; size is the number of live entries and the threshold is recomputed |
| ClassHelpers.ArrayContentsEq | java/lang/Class.java:2607-2627 | A null array counts as empty. The result is true iff the lengths agree and the elements are pairwise equal |
| ClassHelpers.Compacted | java/lang/Class.java:2401-2411 | Compacting never lengthens the sequence |
| ClassHelpers.CompactedElements | java/lang/Class.java:2401-2411 | The compacted sequence has no nulls and holds exactly the non-null elements of the original |
| ClassHelpers.CompactedNoNulls | java/lang/Class.java:2401-2411 | A sequence without nulls compacts to itself |
| ClassHelpers.CompactedDropsNull | java/lang/Class.java:2401-2411 | A sequence with a null slot compacts to a strictly shorter one |
| ClassHelpers.CompactedSameLength | java/lang/Class.java:2401-2413 | Compacting keeps the length exactly when no slot is null, so the trim leaves the array as long as the used slots exactly then |
| ClassHelpers.NulledOut | java/lang/Class.java:2388-2397 | Nulling out by name and signature keeps the length |
| ClassHelpers.AllAddedIfNotPresentSpec | java/lang/Class.java:2370-2377 | The old elements stay in front. Every non-null new element ends up present, nothing else is added, and the added elements are distinct from each other and from the old ones |
| ClassHelpers.MethodArray.constructor | java/lang/Class.java:2336-2339 | A new array has 20 null slots and length 0 |
| ClassHelpers.MethodArray.Add | java/lang/Class.java:2341-2346 | Appends at position length and increments length. When full, it first doubles the backing array, keeping the earlier slots. The store fails with IndexOutOfBounds exactly when the backing array has length 0 or is shorter than length. Length still grows by one then, because `length++` runs before the store is checked, and the slots are unchanged |
| ClassHelpers.MethodArray.AddAllArray | java/lang/Class.java:2348-2352 | Appends every element of the given array in order |
| ClassHelpers.MethodArray.AddAll | java/lang/Class.java:2354-2358 | Appends every element of the other MethodArray in order |
| ClassHelpers.MethodArray.AddIfNotPresent | java/lang/Class.java:2360-2368 | No change if an equal element is among the first length slots; otherwise behaves as Add |
| ClassHelpers.MethodArray.AddAllIfNotPresent | java/lang/Class.java:2370-2377 | Adds each non-null element of the other array that is not yet present, in order |
| ClassHelpers.MethodArray.Length | java/lang/Class.java:2379-2381 | Returns length |
| ClassHelpers.MethodArray.Get | java/lang/Class.java:2383-2385 | The slot at i, or IndexOutOfBounds outside the backing array |
| ClassHelpers.MethodArray.RemoveByNameAndSignature | java/lang/Class.java:2387-2398 | Nulls exactly the slots among the first length that match the return type, name and parameter types; length and the later slots are unchanged |
| ClassHelpers.MethodArray.CompactAndTrim | java/lang/Class.java:2400-2415 | The backing array becomes a fresh or the same array holding exactly the non-null elements of the first length slots, in order. The length field is left as it was, so the array is no longer than length, and `length <= methods.Length` holds afterwards exactly when no used slot was null |
| ClassHelpers.MethodArray.GetArray | java/lang/Class.java:2417-2419 | Returns the backing array itself |
| ClassHelpers.CopyOf | java/lang/Class.java:2343 | `Arrays.copyOf`: a fresh array of length n that keeps the prefix and pads with nulls |
| ClassHelpers.IsAsciiDigitExactly | java/lang/Class.java:1009-1011 | isAsciiDigit holds exactly for '0'..'9' |
| ClassHelpers.DigitRunLength | java/lang/Class.java:998-1000 | The length of the leading run of ASCII digits: all digits before it, and a non-digit or the end at it |
| ClassHelpers.DigitRunOfDigitsThenRest | java/lang/Class.java:998-1000 | Digits followed by a non-digit have exactly the digits as their run |
| ClassHelpers.StripDollarDigits | java/lang/Class.java:994-1002 | MalformedName unless the name starts with '$'; otherwise the name without the '$' and the digit run after it |
| ClassHelpers.LastIndexOf | java/lang/Class.java:2080 | −1 iff the character is absent; otherwise an occurrence with none after it |
| ClassHelpers.ReplaceChar | java/lang/Class.java:2082 | Same length, with every `from` replaced by `to` and every other character kept |
| ClassHelpers.ResolveName | java/lang/Class.java:2070-2089 | Null stays null. A leading "/" is stripped. A name is unchanged when the base name has no '.' |
| ClassHelpers.ResolveRelativeName | java/lang/Class.java:2074-2084 | A relative name in class p.C resolves to p with '.' → '/', then "/", then the name |
| ClassHelpers.ResolvedPackageHasNoDots | java/lang/Class.java:2080-2083 | A relative name resolved against a qualified base name ends with the name, and the prefix before it has no '.' |
| ClassHelpers.JoinedNamesFront | java/lang/Class.java:2665-2671 | The joined names are the first name, then ", " and the rest when there is a rest; null renders "null" |
| ClassHelpers.ArgumentTypesToString | java/lang/Class.java:2661-2675 | "(" + names joined by ", " + ")", and a null array gives "()" |

## Left out

- Concurrency in the map is not modelled: locks, the `scanAndLock` pre-scans, `Unsafe` volatile and ordered accesses, the CAS loop in `ensureSegment` (a single check-then-install here), the retry and lock-escalation loops of `size` and `containsValue` (one sequential pass each), and weak consistency under concurrent mutation.
- The float load factor is a positive rational `num/den`; `(int)(cap * lf)` is the rational product rounded down and saturated at Integer.MAX_VALUE.
- Alternative string hashing is not modelled. `hashSeed` is 0, so `hash` is `Spread(hashCode)`, and each key's hashCode is a parameter of the map (`hashCode`). Key equality `k == key || (hash equal && key.equals(k))` is Dafny equality.
- Keys are never null: the `NullPointerException` that `hash(key)` raises for a null key is not modelled. Null values are `Option` values. `NullPointerException`, `IllegalArgumentException`, `IllegalStateException`, `NoSuchElementException`, `ArrayIndexOutOfBoundsException` and `InternalError` are `Err`/`Fail` results.
- MapSizing.Spread: the Wang/Jenkins mixer is modelled by its definition only. `SpreadSamples` pins its constants on three inputs. No all-inputs property, such as its injectivity, is proved, because those bit-vector identities exceed the solver's budget here.
- Segments.Segment.Rehash: chains are sequence values, so node identity is not modelled. The model does not say that the trailing run is shared with the old table rather than copied, nor that `node.setNext` relinks the existing node that `scanAndLockForPut` may have made.
- Segments.Segment: `count` and `modCount` are unbounded integers. Integer wrap of `modCount` and of `count` past Integer.MAX_VALUE is not modelled.
- ConcurrentHashMaps.ConcurrentHashMap.Size: the Integer.MAX_VALUE-on-overflow half is stated only when every segment's count fits in an int (`CountsFit`), because `count` is unbounded here.
- ConcurrentHashMaps.ConcurrentHashMap.IsEmpty and RecheckPass: the modCount sums are unbounded integers, so `long` wrap is not modelled — it cannot occur in practice.
- The `ConcurrentHashMap(Map)` constructor and `putAll` are not modelled: they only loop over another map's entries and call `put`.
- Serialization (`writeObject`/`readObject`), `keySet`, `values`, `entrySet`, `keys`, `elements`, `contains`, and the `KeyIterator`, `ValueIterator`, `EntryIterator` and `WriteThroughEntry` wrappers are not modelled. They are thin facades over the map and the iterator.
- MapIterators.HashIterator.Remove does not state what remains pending after the removal. The source's iterator is weakly consistent there, and this model specifies only the removal from the map.
- ThreadLocal's thread plumbing is not modelled: `get`, `set` and `remove` on `ThreadLocal`, `getMap`/`createMap`, `createInheritedMap`, and the atomic `nextHashCode` counter. Each key's `threadLocalHashCode` is a parameter (`hashOf`).
- Computing an inherited value is a parameter `childValue` of `Inherit`.
- The garbage collector clearing a weak reference is the explicit step `ThreadLocalMap.Collect(j)`. Setting `Entry.value = null` to help the collector is not modelled, since that value can no longer be reached.
- ThreadLocalMaps.ThreadLocalMap: the table length and `size` are unbounded integers, so the overflow of `len * 2` for tables near 2^30 slots is not modelled.
- ThreadLocalMaps.ThreadLocalMap.CleanSomeSlots: `n >>>= 1` is `n / 2`, with `n ≥ 0` required; the source only ever passes a size or a table length. The contract does not say which slots the scan leaves free of stale entries.
- ThreadLocalMaps.ThreadLocalMap.ReplaceStaleEntry: the contract gives the effect on the mappings and that size does not grow. It does not give the exact number of stale entries removed, nor that the run around staleSlot is left without stale entries.
- ThreadLocalMaps.ThreadLocalMap.Remove: size is stated not to grow, rather than to drop by exactly the number of stale slots expunged.
- ThreadLocalMaps.ThreadLocalMap.GetEntry: the entry is returned as a value (key and value), not as the identical `Entry` object.
- The rest of `java/lang/Class.java` is not modelled: native methods, reflection lookups, security checks, caches, annotations and enum constants. In `ClassHelpers`, a `Method` is a value with a declaring class, a name, a return type and parameter types. Classes are the type parameter `C`, compared with `==`. The datatype's equality is `Method.equals`, which `addIfNotPresent` uses. `removeByNameAndSignature` ignores the declaring class, and its `==` on interned names is string equality.
- ClassHelpers.ResolveName: the base name is a parameter, as `getName` of the class after array component types are stripped, since that walk is reflection.
- `java/util/concurrent/Executor.java` and `java/lang/ref/PhantomReference.java` hold no logic and are not modelled.
