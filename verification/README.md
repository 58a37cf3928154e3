# A verified model of KademliaTransfer

KademliaTransfer is a file-sharing client on a Kademlia distributed hash table. This project
models its core in Dafny and proves what that core is for:

- the **Robin Hood hash map** is a finite map, for every hash function and every behaviour of
  the allocator, in every run that does not meet the limit of a 16-bit field; exactly which keys
  meet it, by their hashes alone, is proved, that growing never does, and that what goes wrong
  then is seen from outside;
- the **routing table** keeps every peer in the bucket of its distance, once, and its search
  returns known peers only, as many as fit; exactly when they are the closest ones, and exactly
  when none is returned twice, is proved;
- the **iterative lookup** ends on every network; whoever holds a value, FIND_VALUE finds it
  exactly when a holder is reachable, if and only if no two reachable peers, other than initial ones,
  share an id; what it finds on the other networks, and exactly when FIND_NODE returns the nearest
  of everything reachable, is proved too, with networks on which they fail;
- the **sort** it uses sorts, and exactly when it is stable is proved;
- the **storage** answers with the owners of the first STORE request for a key that found memory,
  unchanged, in every run whose keys do not meet that limit;
- a **magnet URI** is printed into a buffer of exactly the right size, and the magnets that come
  back from printing and parsing are characterised exactly;
- the **command queue** between the callers and the network thread is first in, first out, and
  no thread uses a freed command, in every interleaving; exactly which callers in flight can
  return is proved.

Code that changes things step by step is modelled step by step: classes whose methods update
arrays, linked nodes and vectors in place, each method tied to a function of the state before it.
The properties are then proved about those functions. The hand-off between threads is a state
machine over the threads' accesses to shared memory.

`dafny verify dfyconfig.toml` checks everything.

## Files

| file | models |
|---|---|
| `Options.dfy`, `Sets.dfy`, `Bits.dfy` | nullable results; counting in finite sets; powers of two and bit masks |
| `RobinHood.dfy` | the bucket table as a value: insertion, lookup, backward shift, rehash |
| `DibLimit.dfy`, `KeySpread.dfy`, `DibOverflow.dfy` | when the 16-bit field wraps, slot by slot and by the hashes of the keys; a run that makes it wrap |
| `HashMapModel.dfy` | the operations of the hash map on its whole state, and runs of them |
| `Sizes.dfy` | bucket counts and thresholds after every operation, in numbers |
| `Observed.dfy` | that lookups and deletions show whether an operation went wrong |
| `HashMap.dfy` | `lib/hash/hashmap.c` as a class with an array of buckets |
| `Ids.dfy` | ids, XOR distance, bucket indexes |
| `Nearest.dfy`, `PeerList.dfy` | `src/list.c`: what find_nearest selects; linked lists in place |
| `Buckets.dfy`, `SearchOrder.dfy`, `RoutingTable.dfy` | `src/bucket.c`: runs of updates; the outward search; the table in place |
| `Repetition.dfy` | tables, and runs that fill them, from which the search returns a peer twice, or not the closest |
| `Vector.dfy`, `Stability.dfy`, `Rotations.dfy` | `src/vector.c`; what its sort does to equal elements |
| `LookupModel.dfy`, `Lookup.dfy` | iterative_find_peers of `src/rpc.c` as a function, and in place |
| `Replies.dfy` | whom a lookup meets and what it returns, from the fields of the replies |
| `FindValue.dfy`, `NodeLookup.dfy` | exactly when FIND_VALUE and FIND_NODE are right; FIND_NODE from the routing table to its answer |
| `Storage.dfy`, `Rpc.dfy` | `src/storage.c`, `src/peer.c` and the request handlers of `src/rpc.c` |
| `Magnet.dfy`, `MagnetText.dfy`, `MagnetUri.dfy` | `src/magnet.c`: the printed form and the parser; both character by character; the code on buffers |
| `CommandQueue.dfy` | `src/command.c` |
| `Commands.dfy`, `CommandRuns.dfy`, `CommandAnswers.dfy`, `CommandProgress.dfy` | the threads of `src/client.c` and `src/network.c`: safety, whose answer is returned, progress |

## Reading the model

- **Hash functions and the network are arbitrary.** The hash callback is any function of the key
  (`h: K -> nat`), clipped to 48 bits as in the source. The network is any fixed function from a
  peer to its reply, and memory allocation is a boolean that says whether it succeeds.
- **The 16-bit field `dib` wraps** at 65536 in the model as in the source. What holds even then
  is `Shape`: each probe loop has an empty slot to stop at. `Sound` adds that the table is a
  finite map, of any size. An operation keeps it if and only if the keys are spread over the slots
  that there will be: any w neighbouring slots are home to fewer than w + 65535 of them (`Spread`,
  `StepRefinesIff`). Growing keeps them spread (`GrowthFits`), and up to 65535 keys always are
  (`FewAreSpread`), however long the run (`SmallRunUnblocked`). `LimitIsReached` gives a run that
  meets the limit, and `StepObservedIff` says that whenever one does, some lookups and deletions
  return what no finite map would.
- **Ids and addresses.** A peer's id is a hash of an address string, but what a lookup is told
  about another peer is an id and an address, and one id may come with two addresses. The lookup
  compares ids and asks the address that it met first. `OwnerIsMissed` and `ReachableIsMissed` are
  networks on which it therefore misses an owner, or a near peer.
- **A table of any number of buckets.** The source declares 8 buckets, and its bucket index runs
  to 255. The model has a table of any size and asks that the index of each peer and target is
  inside it; `FirstByteDecides` says that 8 buckets are enough exactly for the distances whose
  first byte is not zero.
- **Unspecified memory is a parameter.** A parsed magnet without a length has whatever was in the
  memory of its struct (`junk`).

Where the source departs from its own comments, the model follows the code:

- `src/bucket.c:72-87` visits the buckets b, b-1, b+1, b-2, ..., which is not from near to far,
  and `src/list.c:115-120` overwrites every entry that is farther than the newcomer, not one of
  them, so that a peer can be returned twice (`SearchRepeats`). `SelectsKNearestIff`,
  `NoRepetitionIff` and `ClosestIff` say exactly when the results are right all the same
  (`CloserIsLeftOut` is a table for which they are not), and `NetworkFindsNearestIff` when those of
  a lookup are.
- `src/vector.c:80` calls its sort stable, but a vector of two equal elements comes out reversed
  (`SortSwapsEqual`). In longer vectors the order of equal elements may be kept, reversed or
  neither: `StableIff` says exactly when it is kept.
- `lib/hash/hashmap.c:226-261`: after a resize the growth threshold comes from the default load
  factor of 60%, whatever load factor was set (`ResizedThresholdIff`,
  `LoadFactorIsForgotten`).
- `lib/hash/hashmap.c:68` names an upper limit of 90% for the load factor; the code clamps at 95%.
- `src/client.c:93-179` waits for `done` even if the queue refused the command, and
  `src/network.c:314-325` never completes an upload or a download without a file
  (`EleventhCallIsStuck`, `UploadWithoutFileIsStuck`, `ReturnsIff`).
- `src/magnet.c:143-148` does not set the length when the URI has none (`RoundTripIff`).

## Model

| member | source | states |
|---|---|---|
| RobinHood.RunFromHome | lib/hash/hashmap.c:332-342 | under the Robin Hood invariant, the slots between the home of a stored item and its own slot are all occupied, and each is at least as far from its own home |
| RobinHood.DibAtMostCount | lib/hash/hashmap.c:31-34 | a stored dib never exceeds the number of stored items |
| RobinHood.RicherSlotMeansAbsent | lib/hash/hashmap.c:298-310 | at the first slot that is nearer to its home than the carried entry, the entry's key is known not to be stored, so that swapping without looking further keeps keys unique |
| RobinHood.PlaceIntact | lib/hash/hashmap.c:305-310 | the swap keeps the whole invariant: distances from home, dib steps of at most one across the wrap-around, unique keys |
| RobinHood.CarryOn | lib/hash/hashmap.c:311-312 | an entry carried past an occupied slot still fits at the next one and its dib has not wrapped |
| RobinHood.InsertOccupies | lib/hash/hashmap.c:289-313 | whatever the dibs are, even after a wrap, an insertion occupies at most one more slot |
| RobinHood.InsertStores | lib/hash/hashmap.c:289-313 | in a table of any size, when the key is stored or the probe is not blocked: through any chain of displacements the table ends as the same finite map with the item under its key, the old item is returned, the invariant holds, and the occupancy grows by one exactly for a fresh key |
| RobinHood.BlockedIff | lib/hash/hashmap.c:31-34 | a probe is blocked if and only if the run of occupied slots it walks along has a slot at dib 65535 that the carried dib reaches 65535 at |
| RobinHood.FewAreNotBlocked | lib/hash/hashmap.c:31-34 | with fewer than 65535 items no probe is blocked |
| RobinHood.FindIsSound | lib/hash/hashmap.c:327-343 | in any table a slot that the probe finds holds the key |
| RobinHood.FindIsComplete | lib/hash/hashmap.c:327-343 | the probe that stops at the first empty slot finds a key if and only if it is stored |
| RobinHood.FilledIsHoled | lib/hash/hashmap.c:383-393 | one round of the backward shift moves the hole on by one slot and changes neither the map nor the occupancy |
| RobinHood.ShiftBackRemoves | lib/hash/hashmap.c:382-394 | the whole backward shift removes exactly the item it starts at and re-establishes the invariant |
| RobinHood.ShiftBackFrees | lib/hash/hashmap.c:382-394 | in any table, even after a wrap, the shift frees one slot and no more |
| RobinHood.ReinsertOccupies | lib/hash/hashmap.c:226-261 | in any table a rehash never occupies more slots than there were items |
| RobinHood.ReinsertKeepsContents | lib/hash/hashmap.c:226-261 | rehashing by stored hash, without comparing keys and with no insertion blocked, yields a table of the same map and count with the invariant re-established |
| DibLimit.LateLoses | lib/hash/hashmap.c:311-312 | a carried bucket whose dib has fallen behind its distance from home, as it does by wrapping, is lost or ends up in a slot that does not fit it |
| DibLimit.StoredIff | lib/hash/hashmap.c:282-314 | for every hash function and every table: an item is stored, with all that this means, if and only if its key is stored already or its probe is not blocked |
| DibLimit.BlockedDamages | lib/hash/hashmap.c:311-312 | an insertion that is blocked, with or without comparing keys, loses an item or leaves one in a slot that does not fit it |
| DibLimit.RehashIff | lib/hash/hashmap.c:226-261 | a rehash, of any table into one of any size with room, keeps map, count and invariant if and only if none of its insertions is blocked; later insertions never repair the damage |
| DibLimit.CollidingRun | lib/hash/hashmap.c:289-342 | under total collision the items fill the slots from the common home on, with dibs 1, 2, 3, ... |
| DibLimit.FreshKeyStoredIff | lib/hash/hashmap.c:31-34 | under total collision a fresh key is stored if and only if fewer than 65535 items are; at the limit the carried dib wraps and the item is lost |
| KeySpread.StoredIsSpread | lib/hash/hashmap.c:31-34 | the keys of every table that satisfies the invariant are spread over its slots: any w neighbouring slots are home to fewer than w + 65535 of them |
| KeySpread.BlockedIsCrowded | lib/hash/hashmap.c:311-312 | a blocked probe runs along a window of slots that is home to too many keys |
| KeySpread.FreshBlockedIff | lib/hash/hashmap.c:289-313 | the probe for a fresh key is blocked if and only if the keys, with it, are not spread, whatever was inserted and deleted in which order |
| KeySpread.StoredIffSpread | lib/hash/hashmap.c:282-314 | for every hash function, an item is stored, with all that this means, if and only if the keys with its own are spread |
| KeySpread.RehashesIff | lib/hash/hashmap.c:226-261 | no insertion of a rehash is blocked if and only if the keys are spread over the new table |
| KeySpread.FewAreSpread | lib/hash/hashmap.c:31-34 | up to 65535 keys are spread, whatever their hashes |
| KeySpread.SpreadOver | lib/hash/hashmap.c:275-280 | keys that are spread over a table are spread over a table of a multiple of its slots |
| KeySpread.GrowingRehashes | lib/hash/hashmap.c:275-280 | no insertion of a rehash into a multiple of the buckets is blocked, however many items there are |
| RobinHood.ContentsCount | lib/hash/hashmap.c:414-416 | the number of occupied slots is the size of the map |
| RobinHood.ItemsAreContents | lib/hash/hashmap.c:437-447 | one pass over the slots gives every pair of the map, each key once, as many as there are items |
| RobinHood.ItemSlot | lib/hash/hashmap.c:437-447 | in slot order: item a is that of the slot with a occupied slots before it |
| Bits.MaskIsRemainder | lib/hash/hashmap.c:289-311 | masking with a power of two minus one is the remainder |
| HashMapModel.NewShape | lib/hash/hashmap.c:104-161 | a new map has a power of two of at least 16 buckets, and thresholds inside their bounds |
| HashMapModel.GrownShape | lib/hash/hashmap.c:275-280 | growing at least doubles the number of buckets and keeps it a power of two, with room for every item |
| HashMapModel.ShrunkCap | lib/hash/hashmap.c:395-400 | a map that shrinks stays a power of two, not below its capacity, and its items fit |
| HashMapModel.RoomyShape | lib/hash/hashmap.c:273-280 | when hashmap_set starts to probe there is an empty slot left after the insertion as well |
| HashMapModel.SetShape | lib/hash/hashmap.c:270-314 | a set keeps the shape: count below the number of buckets, so that every probe ends |
| HashMapModel.DeleteShape | lib/hash/hashmap.c:366-405 | a delete keeps the shape, whether the map shrinks, does not, or fails to |
| HashMapModel.ClearShape | lib/hash/hashmap.c:207-224 | a clear keeps the shape |
| HashMapModel.SetLoadFactorShape | lib/hash/hashmap.c:67-79 | every load factor, NaN included, leaves a growth threshold of at most 95% of the buckets |
| HashMapModel.NewSound | lib/hash/hashmap.c:104-161 | a new map is the empty map |
| HashMapModel.ResizedIff | lib/hash/hashmap.c:226-261 | a resize keeps map, count and invariant if and only if the keys are spread over the new number of slots |
| HashMapModel.GrowthFits | lib/hash/hashmap.c:275-280 | they are when the map grows, for every number of items |
| HashMapModel.ResizedThresholdIff | lib/hash/hashmap.c:226-261 | after a resize the growth threshold is that of the load factor that was set if and only if that is the default of 60%, or within 57 to 62% for 16 buckets and 60 to 62% for 32 |
| Sizes.HomeIs | lib/hash/hashmap.c:93-99 | the home of an item is the remainder of the callback's hash by the number of buckets, up to 2^48 of them; 48 bits of the hash are kept |
| Sizes.NewSize | lib/hash/hashmap.c:104-161 | a new map has the smallest power of two from 16 on that is not below the wanted capacity, grows at 60% of it and shrinks at 10% |
| Sizes.SetSize | lib/hash/hashmap.c:270-314 | hashmap_set multiplies the buckets by two to the growth power exactly when count has reached the threshold and there is memory, and then counts a fresh key; without memory it only sets oom |
| Sizes.DeleteSize | lib/hash/hashmap.c:366-405 | hashmap_delete halves the buckets exactly when it has deleted, there are more than the capacity, count has come down to the threshold and there is memory |
| Sizes.ClearSize | lib/hash/hashmap.c:207-224 | hashmap_clear goes back to the capacity, or makes the present size the capacity; the load factor that was set decides the threshold |
| Sizes.LoadFactorSize | lib/hash/hashmap.c:67-79 | the load factor is clamped to 50 to 95%, rounded down, and the threshold follows it at once; NaN keeps it |
| Sizes.GrowPowerSize | lib/hash/hashmap.c:63-65 | the growth power is clamped to 1 to 16 |
| Sizes.RunThresholds | lib/hash/hashmap.c:104-411 | in every run the map shrinks at 10% of its buckets, and grows at 60% or at the load factor that was set |
| HashMapModel.SetRefinesIff | lib/hash/hashmap.c:270-322 | hashmap_set returns the old item, changes one key and keeps the invariant, or, exactly when the table is full to its threshold and memory is refused, fails and changes only the oom flag; it does so if and only if memory is refused so, or the keys with the new one are spread over the slots after any growth |
| HashMapModel.FewCanStore | lib/hash/hashmap.c:270-314 | below 65535 items every item can be stored |
| HashMapModel.LocateIsComplete | lib/hash/hashmap.c:327-343 | the probe finds the slot of a key exactly when the key is mapped, and the slot holds its item |
| HashMapModel.GetRefines | lib/hash/hashmap.c:327-349 | hashmap_get returns exactly the mapped item, or NULL |
| HashMapModel.RemovedSound | lib/hash/hashmap.c:381-394 | removing a slot's item removes that key from the map and nothing else |
| HashMapModel.DeleteRefinesIff | lib/hash/hashmap.c:366-411 | hashmap_delete returns the mapped item, removes that key only and keeps the invariant, if and only if the other keys are spread over half the slots when the map shrinks |
| HashMapModel.FewCanRemove | lib/hash/hashmap.c:395-400 | up to 65536 items, or without memory for a smaller array, every key can be deleted |
| HashMapModel.ClearSound | lib/hash/hashmap.c:207-224 | after hashmap_clear the map is empty, from any state, even one whose dibs have wrapped |
| HashMapModel.SettingsSound | lib/hash/hashmap.c:63-79 | the load factor and the growth power do not touch the items |
| HashMapModel.StepRefinesIff | lib/hash/hashmap.c:270-411 | each operation is the operation of a finite map and keeps the invariant if and only if the keys are spread over the slots that there will be |
| HashMapModel.RunKeepsShape | lib/hash/hashmap.c:270-411 | in every run whatever, beyond 65535 items as well, each probe loop has an empty slot to stop at |
| HashMapModel.SmallTableCanStore | lib/hash/hashmap.c:31-34 | with at most 65536 buckets every item can be stored |
| HashMapModel.SmallRunUnblocked | lib/hash/hashmap.c:270-411 | a run of any length in which a plain map would never hold more than 65535 keys, whichever sets are refused, never meets the limit |
| HashMapModel.FewKeysStaySmall | lib/hash/hashmap.c:270-411 | for that it is enough that the map and all sets of the run have at most 65535 different keys |
| HashMapModel.ShortRunUnblocked | lib/hash/hashmap.c:270-411 | so a run of up to 65535 operations from an empty map never meets the limit, whatever it does |
| HashMapModel.RunAgreesIff | lib/hash/hashmap.c:270-411 | every step of a run is the step of a finite map and keeps the invariant if and only if no step of the run meets the limit |
| HashMapModel.RunRefines | lib/hash/hashmap.c:270-416 | every run that does not meet the limit, for every hash function, every size and every behaviour of the allocator, returns what a finite map returns, and count is the size of that map |
| Observed.SoundMimics | lib/hash/hashmap.c:327-411 | no run of lookups and deletions tells a state that satisfies the invariant from its finite map |
| Observed.ShiftMovesOrParts | lib/hash/hashmap.c:382-394 | in any table, the backward shift moves a bucket further on in the run back by one slot, or leaves it alone and a gap before it |
| Observed.LateIsFound | lib/hash/hashmap.c:382-394 | a bucket whose dib has fallen behind is found out: deleting the item in its home slot again and again leaves a gap that hides it |
| Observed.DamagedIsFound | lib/hash/hashmap.c:327-411 | a table that lost an item, or holds one in a slot that does not fit it, answers some run of lookups and deletions as no map of its size would |
| Observed.StepObservedIff | lib/hash/hashmap.c:270-411 | an operation returns what a finite map returns, and leaves a state that no lookups and deletions tell from that map, if and only if the keys are spread over the slots that there will be |
| DibOverflow.LimitIsReached | lib/hash/hashmap.c:31-34 | a run of 65535 sets with one hash ends in a sound table in which the next set loses its key |
| DibOverflow.LoadFactorIsForgotten | lib/hash/hashmap.c:226-261 | a run that sets the load factor to 90% and grows ends with the growth threshold of 60% |
| HashMap.NextByMask | lib/hash/hashmap.c:311 | adding one and masking is the cyclic successor |
| HashMap.PassBy | lib/hash/hashmap.c:241-248 | one round of the rehash loop leaves the rest of the insertion to do |
| HashMap.CarryInto | lib/hash/hashmap.c:230-249 | the inner rehash loop inserts the bucket and every bucket it displaces, and leaves the other old slots alone |
| HashMap.Create | lib/hash/hashmap.c:104-161 | a new map is sound and empty, or NULL exactly when memory is refused |
| HashMap.HashMap.MoveInto | lib/hash/hashmap.c:230-252 | the outer loop moves every item of the old array |
| HashMap.HashMap.Resize | lib/hash/hashmap.c:226-261 | the new array replaces the old one after a successful rehash; without memory nothing changes |
| HashMap.HashMap.GrowIfFull | lib/hash/hashmap.c:273-280 | the array grows exactly when it is full to its threshold and memory is granted |
| HashMap.HashMap.Store | lib/hash/hashmap.c:282-314 | the probe loop on the array does the insertion and counts a fresh key |
| HashMap.HashMap.SetWithHash | lib/hash/hashmap.c:270-314 | growth and probe together are the set operation of the model, in place, for whatever hash the caller gives |
| HashMap.HashMap.Set | lib/hash/hashmap.c:320-322 | on the represented map: one key updated and its old item returned, or nothing changed and oom set, whenever the keys are spread |
| HashMap.HashMap.Probe | lib/hash/hashmap.c:327-343 | the loop finds the slot of the key or an empty slot |
| HashMap.HashMap.Get | lib/hash/hashmap.c:347-349 | returns the mapped item, in a map of any size |
| HashMap.HashMap.GetWithHash | lib/hash/hashmap.c:327-343 | the same probe for whatever hash the caller gives |
| HashMap.HashMap.Shift | lib/hash/hashmap.c:382-393 | the loop shifts the following run back by one slot in the array |
| HashMap.HashMap.ShrinkIfSparse | lib/hash/hashmap.c:395-400 | the array is halved only when it is sparse, above the capacity, and memory is granted |
| HashMap.HashMap.DeleteWithHash | lib/hash/hashmap.c:366-405 | probe, shift and shrinking together are the delete operation of the model, in place, for whatever hash the caller gives |
| HashMap.HashMap.Delete | lib/hash/hashmap.c:409-411 | on the represented map: the key is gone, its item returned, all other keys kept, whenever the other keys are spread over a shrunken array |
| HashMap.HashMap.Clear | lib/hash/hashmap.c:207-224 | the map is empty and sound, also when the smaller array is refused |
| HashMap.HashMap.SetLoadFactor | lib/hash/hashmap.c:75-79 | sets the clamped factor and the new threshold, and keeps the items |
| HashMap.HashMap.SetGrowPower | lib/hash/hashmap.c:63-65 | sets the clamped power, and keeps the items |
| HashMap.HashMap.Iter | lib/hash/hashmap.c:467-476 | returns the next item of the pass and a cursor from which the rest of the pass follows |
| HashMap.HashMap.Scan | lib/hash/hashmap.c:437-447 | visits the items in order up to the first that the callback refuses, and returns true exactly when there is none |
| Ids.FirstDifferenceDecides | src/list.c:86-94 | the first differing byte decides the order of two distances |
| Ids.LessIsTotal | src/list.c:86-94 | the order is total and strict |
| Ids.XorCancels | src/list.c:80-84 | two ids at the same distance from a target are the same id |
| Ids.CloserIsTotal | src/rpc.c:155-165 | of two different ids exactly one is closer to a target |
| Ids.CloserIsTransitive | src/rpc.c:155-165 | closeness to a target is transitive |
| Ids.XorBit | src/list.c:80-84 | the distance of two ids has the bits in which they differ |
| Ids.LessByBit | src/list.c:86-94 | the byte order of distances is the order of their bits, most significant first |
| Ids.LeadIsUnique | src/bucket.c:19-31 | a distance has one leading bit |
| Ids.NoBucketForOurselves | src/bucket.c:30 | -1 is the index of our own id and of no other |
| Ids.BucketsOrderCloseness | src/bucket.c:68-87 | all peers of bucket j are closer to the target than all peers of bucket l if and only if, of the bits j and l of our own distance to the target, the lower-indexed one says so |
| Ids.RankIsAhead | src/bucket.c:68-87 | the target's own bucket is closest, then all buckets above it, then those below it one by one |
| Ids.FirstByteDecides | include/bucket.h:23 | a distance has one of the first eight indexes exactly when its first byte is not zero |
| Ids.GetBucketIndex | src/bucket.c:19-31 | the two loops find the leading bit, or -1 when there is none |
| Ids.DistHash | src/list.c:80-84 | fills the result with the XOR of the two ids |
| Ids.CompareHashes | src/list.c:86-94 | the sign of the result is the order of the distances, and 0 means equal |
| Nearest.SelectsFromPeers | src/list.c:96-126 | find_nearest returns peers of the list only |
| Nearest.SelectAll | src/list.c:110-113 | a list that fits is returned whole |
| Nearest.FullStep | src/list.c:114-121 | a newcomer that beats at most one entry keeps the result the k nearest; one that beats two makes it hold a duplicate |
| Nearest.SelectsKNearestIff | src/list.c:96-126 | find_nearest returns the k nearest peers if each peer after the first k has at least k - 1 closer ones before it, and a result with a duplicate otherwise |
| PeerList.ReplaceInPlace | src/list.c:115-120 | the inner loop overwrites exactly the entries that are farther, and their distances |
| PeerList.Offer | src/list.c:110-121 | one loop body: the peer is appended while there is room, and overwrites otherwise |
| PeerList.DList.AddFront | src/list.c:8-28 | the new peer is in front, the others follow unchanged, and all links in both directions are right |
| PeerList.DList.FindById | src/list.c:128-141 | finds a peer of that id exactly when the list has one |
| PeerList.DList.FindNearest | src/list.c:96-126 | the walk over the list leaves the selection in the given part of the result array and the rest of it untouched |
| Buckets.UpdateKeepsTable | src/bucket.c:99-151 | an update keeps each bucket small, free of repetitions and of one leading bit, loses no peer, and leaves the sender known unless its bucket is full |
| Buckets.TableIdsDistinct | src/bucket.c:99-151 | no id occurs twice in the whole table, and our own id does not occur |
| Buckets.RunKeepsTable | src/bucket.c:99-151 | after every run of updates all of this holds, and whoever was known is still known |
| Buckets.UpdatedIs | src/bucket.c:99-151 | a peer goes to the front of the bucket of its distance if it is not ourselves, not known there by its id, and the bucket holds fewer than four; otherwise nothing changes |
| Buckets.NoPeersWellPlaced | src/rpc.c:18 | the empty table is a good start |
| Buckets.SearchFills | src/bucket.c:66-94 | the search returns known peers only, and exactly min(n, number of known peers) of them |
| SearchOrder.SearchFindsAll | src/bucket.c:66-94 | when at most n peers are known, each is returned once |
| Buckets.FindClosestIs | src/bucket.c:43-96 | find_closest_peers gives NULL exactly when our own id is not known or is the target, or there is nothing to find; otherwise what the search from the target's bucket finds: known peers, as many as fit |
| SearchOrder.OrderIs | src/bucket.c:68-87 | the search visits every bucket, and none twice |
| SearchOrder.SearchGathers | src/bucket.c:68-87 | the alternating loop is one walk along that order |
| SearchOrder.GatherCut | src/bucket.c:68-87 | the walk takes whole buckets up to the one that completes n peers, and selects from that one |
| SearchOrder.CutIsThere | src/bucket.c:76-87 | there is such a bucket whenever at least n peers are known |
| SearchOrder.ClosestIff | src/bucket.c:66-94 | when more peers are known than fit, the result is the n closest if and only if find_nearest is right on the last bucket visited and, of any two buckets on either side of the cut, the one visited first holds the closer peers |
| SearchOrder.NoRepetitionIff | src/bucket.c:66-94 | no peer is returned twice if and only if find_nearest is right on the last bucket visited |
| Repetition.EveryTableIsReached | src/bucket.c:99-151 | every table that keeps the invariant is the result of a run of updates |
| Repetition.ThreeForTwo | src/list.c:115-120 | of three peers, the nearest last, find_nearest with room for two returns the nearest twice |
| Repetition.SearchRepeats | src/bucket.c:66-94 | a table of five peers from which the search for four returns one twice |
| Repetition.CloserIsLeftOut | src/bucket.c:72-87 | a table from which the search for four leaves out a peer closer than all four, although find_nearest is right on every bucket |
| SearchOrder.OwnBucketIff | src/bucket.c:68-70 | when the target's own bucket has n peers, only find_nearest's being right on it matters |
| RoutingTable.RoutingTable.constructor | src/rpc.c:18 | every bucket starts empty |
| RoutingTable.RoutingTable.UpdateBucketPeers | src/bucket.c:99-151 | the table in place becomes the updated table: the peer in front of its bucket, or no change for ourselves, a known id or a full bucket |
| RoutingTable.RoutingTable.SearchOutward | src/bucket.c:74-87 | the loop fills the result array from the front without gaps |
| RoutingTable.RoutingTable.FindClosestPeers | src/bucket.c:33-95 | the result array holds what the search finds and then NULLs; it is NULL when our id is not known, is the target, or nobody is known |
| Vector.VectorPtr.Push | src/vector.c:19-32 | appends, through any reallocation |
| Vector.VectorPtr.Get | src/vector.c:52-62 | the element, or NULL past the end |
| Vector.VectorPtr.Put | src/vector.c:64-74 | replaces one element, or nothing past the end |
| Vector.BubbledCarries | src/vector.c:82-94 | an inner pass keeps the part behind it sorted and carries a greatest element to its end |
| Vector.PassesSort | src/vector.c:81-95 | after i passes the last i elements are in their places |
| Vector.SortSorts | src/vector.c:76-96 | the sort permutes, and sorts by every strict weak order |
| Vector.SortSwapsEqual | src/vector.c:80-93 | a vector of two equal elements comes out reversed |
| Stability.SortIsRec | src/vector.c:76-96 | the sort is a pass and then the sort of all but the greatest element |
| Stability.SweepMarks | src/vector.c:82-94 | a pass moves the first element equal to v, if no greater one is before it, behind the others up to the first greater one, and that one to the end |
| Rotations.ReversesIff | src/vector.c:81-95 | rotations of growing prefixes reverse a sequence if and only if, for each k, those of k elements are one less than a multiple of k |
| Stability.KeepsOrderIff | src/vector.c:76-96 | the sort keeps the order of the elements equal to v if and only if, for each k from 2 up to their number, the greater elements that stand behind exactly k of them are one less than a multiple of k |
| Stability.StableIff | src/vector.c:80 | the sort is stable on a vector of different elements if and only if this holds for each of them |
| Stability.NoTiesOneResult | src/vector.c:76-96 | without equal elements the result is the only sorted permutation |
| Stability.AllEqualReversed | src/vector.c:76-96 | elements that all compare equal come out in reverse |
| Vector.VectorPtr.Pass | src/vector.c:82-94 | the inner loop makes one pass on the array |
| Vector.VectorPtr.Sort | src/vector.c:76-96 | the array ends up sorted, and a permutation of what it was |
| LookupModel.MergeProgress | src/rpc.c:316-333 | digesting a reply adds nothing or meets ids that were not met before, which is why every lookup ends |
| Replies.LookupMeets | src/rpc.c:193-373 | a lookup asks in the order of meeting; it meets the initial peers and then, in the order of the replies, whoever a FIND_NODE reply, or a FIND_VALUE reply without the key, names, each id once; it ends when everyone met was asked or with the values of the first peer that has the key |
| Replies.NamedAreMet | src/rpc.c:273-366 | when a lookup ends without owners, everyone that such a reply of a peer met names has been met by id |
| Replies.MetAreNamed | src/rpc.c:273-366 | nobody else is met: each peer met is an initial one or one that such a reply names |
| Replies.FoundIff | src/rpc.c:273-306 | FIND_VALUE finds v if and only if the first of the peers met that has the key gives v as its values |
| LookupModel.ExploreExtends | src/rpc.c:316-333 | peers are only appended: they are asked in the order in which they were met |
| LookupModel.ExploreCloses | src/rpc.c:228-373 | when a lookup ends without owners, everyone reported by a peer met has been met |
| LookupModel.ExploreReaches | src/rpc.c:228-373 | a set of peers that holds the initial ones and is closed under replies holds every peer met |
| LookupModel.ExploreDistinct | src/rpc.c:316-333 | the peers met have different ids if and only if the initial peers have |
| LookupModel.ExploreFindsFirst | src/rpc.c:273-306 | the owners found are those of the earliest answering peer in the order of asking; without owners, no peer met gives any |
| LookupModel.NodeLookupFindsNoOwner | src/rpc.c:339-366 | FIND_NODE never stops early |
| LookupModel.LookupMeetsReachable | src/rpc.c:193-373 | every peer met is reachable: it is in the least set that holds the initial peers and is closed under replies |
| LookupModel.LookupMeetsLeast | src/rpc.c:193-373 | on every network, a lookup without owners meets the least set of ids that holds the initial ones and is closed under the replies of the peers first met with them |
| LookupModel.LookupMeetsAll | src/rpc.c:193-373 | where reachable peers of the same id reply the same, a lookup without owners meets exactly the ids of the reachable peers |
| LookupModel.LookupFindsIff | src/rpc.c:193-416 | where reachable peers of the same id reply the same, FIND_VALUE finds owners if and only if some reachable peer answers with some |
| FindValue.LookupFindsExactly | src/rpc.c:224-373 | on every network, FIND_VALUE finds owners if and only if it would meet some peer that has them if those peers did not answer |
| FindValue.MeetsEveryoneIff | src/rpc.c:317-333 | on every network, a lookup without owners meets every reachable peer if and only if no two of them, other than initial ones, share an id |
| FindValue.ApartFindsRight | src/rpc.c:193-416 | where no two reachable peers, other than initial ones, share an id, FIND_VALUE finds owners if and only if a reachable peer has them |
| FindValue.AlwaysFindsRightIff | src/rpc.c:193-416 | whoever holds the owners, FIND_VALUE finds them if and only if a holder is reachable: this is so if and only if no two reachable peers, other than initial ones, share an id |
| FindValue.OwnerIsMissed | src/rpc.c:317-333 | a network in which an id has two addresses and a reachable owner is not found |
| LookupModel.UpdatedByConcat | src/rpc.c:306-315 | feeding the routing table reply by reply is one run of updates |
| LookupModel.DistanceIsStrictWeak | src/rpc.c:155-165 | the comparator is one that the sort sorts by |
| LookupModel.SortedPrefixIsNearest | src/rpc.c:377-409 | the first k of the sorted peers are in order of distance, none left out is closer, and with different ids they are the k nearest |
| LookupModel.NodeLookupIsExact | src/rpc.c:193-416 | from initial peers of different ids, where reachable peers of the same id reply the same, FIND_NODE returns the k nearest of everything reachable: every reachable peer is among them by its id, or is farther than all k of them |
| NodeLookup.SortedPrefixIff | src/rpc.c:377-409 | the first k of the sorted peers are the k nearest of those met if and only if a peer met twice has k - 1 others before it and peers that share an id have k, however the sort orders equal ones |
| NodeLookup.NetworkFindsNearestIff | src/rpc.c:193-416 | on every single network, FIND_NODE returns the k nearest of everything reachable if and only if that is so and every reachable peer whose id was not met has k of those met before it |
| NodeLookup.FindsNearestIff | src/rpc.c:193-416 | from at most k initial peers FIND_NODE returns the k nearest of everything reachable on all networks in which reachable peers of the same id reply the same, if and only if those peers have different ids |
| NodeLookup.ReachableIsMissed | src/rpc.c:317-333 | a network in which an id has two addresses and FIND_NODE misses a reachable peer although its result is not full |
| NodeLookup.FindNodeIff | src/rpc.c:500-501 | FIND_NODE from the routing table does so for the K_VALUE nearest if and only if the search of the table repeats no peer |
| Lookup.Traversal.Seed | src/rpc.c:207-222 | the lookup starts from the found places of the table's answer |
| Lookup.Traversal.Knows | src/rpc.c:317-325 | the duplicate check is exact |
| Lookup.Traversal.AbsorbOne | src/rpc.c:308-333 | a reported peer goes to the table, and is appended, not contacted, exactly when its id is new |
| Lookup.Traversal.Absorb | src/rpc.c:308-334 | all reported peers do, in order, and no mark changes |
| Lookup.Traversal.Ask | src/rpc.c:232-366 | one peer is marked and its reply digested or, if it has owners, returned |
| Lookup.Traversal.Pass | src/rpc.c:231-370 | one pass over the growing vector contacts every peer in it, those added meanwhile included, or stops at owners |
| Lookup.Traversal.Traverse | src/rpc.c:224-373 | the loops end in the outcome of the model, so that the `pending.size >= max_peers` stop never cuts a lookup short |
| Lookup.Traversal.DeliverNearest | src/rpc.c:377-409 | the first of a sorted permutation of the peers met are delivered, and the rest of the caller's array is untouched |
| Lookup.IterativeFindPeers | src/rpc.c:193-416 | return value, delivered peers and the routing table afterwards, for FIND_NODE and FIND_VALUE and for invalid arguments: FIND_VALUE succeeds exactly when some peer met has the key, and delivers the first of the values that the first such peer gives; the table is updated with everyone named, in order |
| Storage.SerializeRpcValue | src/storage.c:94-107 | the owners in use are copied, the other slots are untouched |
| Storage.DeserializeRpcValue | src/storage.c:109-122 | the owners in use are copied, the other slots are untouched |
| Storage.StoredStays | src/storage.c:82-92 | no later request changes the value of a stored key |
| Storage.FirstStoreWins | src/storage.c:82-92 | after every run of requests a key is held if and only if some request for it found memory, and it holds the value of the first such request |
| Storage.NoMorePairsThanRequests | src/storage.c:82-92 | n requests leave at most n pairs |
| Storage.Storage.GetValue | src/storage.c:70-80 | the stored pair, or NULL; the storage is set up on first use, and the call crashes exactly when that has failed |
| Storage.AfterPuts | src/storage.c:82-92 | writes once, whenever the hash map can store the key: a known key keeps its value; a new one is refused exactly when the hash map has to grow and memory is refused |
| Storage.RunStores | src/storage.c:82-92 | after every run of requests of which none meets the limit of the hash map, the storage holds the pairs that a write-once map holds |
| Storage.FewKeysUnblocked | src/storage.c:82-92 | a run of any length with at most 65535 different keys does not meet it |
| Storage.Storage.PutValue | src/storage.c:82-92 | on the object: the whole new state, and on the represented map a write-once update; the call crashes exactly when the setup has failed |
| Rpc.FirstStoreAnswers | src/rpc.c:32-114 | FIND_VALUE answers from the storage if and only if a STORE for the key found memory, and the answer lists the owners of the first such STORE: same number, order, ids and addresses |
| Rpc.Serve | src/rpc.c:32-114 | on the real storage, from its start: after STOREs of which none meets the limit of the hash map, FIND_VALUE answers from the storage if and only if a STORE for the key found memory, with the owners of the first such STORE; any number of STOREs with at most 65535 different keys are such; the node crashes exactly when memory for the setup is refused |
| Rpc.HandleStore | src/rpc.c:32-47 | the received owners are stored unless the key is known |
| Rpc.HandleFindValue | src/rpc.c:89-144 | the stored owners if and only if the key is stored; otherwise the ids and addresses of what the search of the table for four peers finds |
| Rpc.HandleFindNode | src/rpc.c:49-87 | when our own id is known and is not the key, as many peers as are known up to four, with the ids and addresses of what the search of the table for four finds, in its order; otherwise nobody |
| Rpc.HandleBroadcast | src/rpc.c:146-153 | the sender, with its id and address, is recorded in the table |
| Magnet.UnHexOfHex | src/magnet.c:66-114 | reading the printed hash gives back its bytes |
| Magnet.AtoiOfDecimal | src/magnet.c:143-148 | a printed length is read back exactly when it is an int |
| Magnet.SizeFits | src/magnet.c:51-55 | every length prints in at most 20 digits, inside the number buffers |
| Magnet.FieldAfter | src/magnet.c:116-141 | text without '&' in front of a field does not change what the regular expression finds |
| Magnet.FieldThere | src/magnet.c:136-141 | the length is found behind a name without '&' |
| Magnet.FieldInside | src/magnet.c:116-141 | a field inside the name is found before one that follows it |
| Magnet.FieldIs | src/magnet.c:116-141 | the regular expression of a field finds exactly the text behind its first key, up to the next '&' or the end |
| Magnet.ParseMeans | src/magnet.c:86-159 | the result of the parser is the one with this meaning: no magnet, undefined, or the bytes of the digits, the value of the name field and the number of the length field |
| MagnetText.HexValueIs | src/magnet.c:94-114 | the characters 0-9, a-f and A-F are the hexadecimal digits, with the values 0 to 15 |
| MagnetText.AtoiReads | src/magnet.c:147 | atoi gives the number that the text begins with, after blanks and with a sign or none, if it is between -2^31 and 2^31 - 1 |
| MagnetText.ParseTextMeans | src/magnet.c:86-159 | the result of the parser in terms of the characters of the text: a magnet is `magnet:?xt=urn:sha256:` and 64 hexadecimal digits, which give the bytes two by two; the name is the text behind the first `&dn=`, the length the number behind the first `&xl=`, as size_t, if it has fewer than 32 characters and fits an int |
| MagnetText.CaseMakesNoDifference | src/magnet.c:94-114 | two texts whose digits differ only in their case give the same hash |
| MagnetText.UriPrints | src/magnet.c:45-84 | the URI is the base, two small hexadecimal digits for each byte, `&dn=` and the name if there is one, and `&xl=` and the digits of the length, without a leading zero, if it is not 0 |
| Magnet.NameIsParsed | src/magnet.c:116-134 | of a printed name the parser finds what stands before its first '&' |
| Magnet.PrintedParses | src/magnet.c:45-148 | what the parser makes of every printed magnet: its hash, its name up to the first '&', and as its length the number behind the first length key that the name has, or else the printed length, or else what memory holds; or undefined behaviour when that number does not fit |
| Magnet.PlainParses | src/magnet.c:45-148 | a magnet whose name has no '&' comes back but for a length of 0 or beyond int |
| Magnet.RoundTripIff | src/magnet.c:45-159 | printing and parsing gives the magnet back, whatever memory holds, if and only if its name has no '&' and its length is positive and below 2^31 |
| Magnet.ParsedComesBack | src/magnet.c:86-159 | a magnet that came out of the parser comes back from a second trip exactly when its length is positive and below 2^31 |
| MagnetUri.StrLen | src/magnet.c:70-80 | finds the end of the string in the buffer |
| MagnetUri.Strncat | src/magnet.c:70-80 | appends as much as there is room for |
| MagnetUri.PrintHash | src/magnet.c:65-68 | the loop prints the 64 digits of the hash |
| MagnetUri.UriSize | src/magnet.c:49-59 | the computed size is that of the URI and its terminator |
| MagnetUri.SaveMagnetToUri | src/magnet.c:45-84 | a new buffer that the URI, as its characters are given, and its terminator fill: no strncat cuts anything off, and no byte is spare; NULL for NULL |
| MagnetUri.ReadHash | src/magnet.c:109-114 | the loop reads the bytes of the hash |
| MagnetUri.CopyMatch | src/magnet.c:110-133 | the copy ends up in the buffer as a string |
| MagnetUri.ReadLength | src/magnet.c:143-148 | the length is read through its buffer of 32 characters exactly when it fits and is an int |
| MagnetUri.ParseMagnetFromUri | src/magnet.c:86-159 | the result has the meaning of the text's characters, and a printed magnet comes back |
| CommandQueue.CommandQueue.constructor | src/command.c:36-45 | the queue starts empty |
| CommandQueue.CommandQueue.PushCommand | src/command.c:47-65 | appends, across the wrap-around, and fails exactly when ten commands wait |
| CommandQueue.CommandQueue.PopCommand | src/command.c:67-84 | removes the oldest command, and fails exactly when none waits |
| Commands.CreateKeeps | src/client.c:94-103 | a caller that allocates a command at any address not in use keeps the invariant of the hand-off |
| Commands.PushKeeps | src/client.c:105 | so does a push by any caller at any moment, whether it finds room or not |
| Commands.AcquireKeeps | src/client.c:107-112 | so does taking the command's lock, first or when a wait ends, for whatever reason |
| Commands.TestKeeps | src/client.c:108-113 | so does testing `done` and waiting or leaving |
| Commands.CopyKeeps | src/client.c:115 | so does reading the result |
| Commands.FreeKeeps | src/client.c:115-119 | so does freeing a command, also when its address is used again |
| Commands.LookKeeps | src/network.c:302 | so does the worker's look at `count` without the lock |
| Commands.PopKeeps | src/network.c:302-303 | so does the worker's pop |
| Commands.HandleKeeps | src/network.c:307-334 | so does handling a command, or skipping one without a file |
| Commands.LockKeeps | src/network.c:337 | so does the worker's taking the command's lock |
| Commands.MarkKeeps | src/network.c:338 | so does setting `done` |
| Commands.UnlockKeeps | src/network.c:339-340 | so does giving the lock back, after which the worker uses the command no more |
| CommandRuns.RunKeeps | src/network.c:297-341 | every interleaving keeps the invariant |
| CommandRuns.EveryRunIsSafe | src/client.c:93-179 | in every interleaving of any number of callers with the worker: no thread uses freed memory, commands leave in the order they entered, each once, the worker's pop after seeing count > 0 finds a command, a command is freed only when it is done, unlocked, not queued and not with the worker, and a caller returns its own command's result |
| CommandRuns.AnswersStay | src/network.c:310-330 | the result computed for a command is never replaced |
| CommandAnswers.ReturnsOwnAnswer | src/client.c:93-179 | in every interleaving, a caller that has returned x had made its latest call at some step, for the status, or for an upload or a download with a file, and at a later step the network thread served just that call: x is 1 for the status, and otherwise what the upload or the download returned there |
| CommandRuns.PushFindsRoom | src/command.c:53-56 | with at most ten callers in flight a push never fails |
| CommandRuns.StuckStays | src/network.c:314-325 | no step of any thread helps a caller whose command has no file or was refused by the queue |
| CommandRuns.StuckForever | src/client.c:108-113 | such a caller never returns |
| CommandRuns.UploadWithoutFileIsStuck | src/network.c:314-317 | a run of two steps that ends in such a caller |
| CommandRuns.EleventhCallIsStuck | src/command.c:53-56 | a run of eleven calls of which the last is refused and stuck |
| CommandProgress.CanReturn | src/network.c:297-341 | every caller whose command is queued or taken, and not skipped, has a way to return |
| CommandProgress.CanStart | src/client.c:105 | so has every caller about to push a command that is not skipped, even when the queue is full |
| CommandProgress.ReturnsIff | src/client.c:93-179 | a caller in flight can return if and only if its command shows the status or has a file, and the queue has not refused it |

## Left out

- HashMap: the raw memory of an item (`elsize`, `spare`, `edata`, `elfree`, seeds) is a key and a value, the callback `compare` is equality of keys, and a map without `compare` is not modelled.
- HashMap: the load factors are exact percentages and the thresholds are rounded down; rounding of floating-point numbers is not modelled. Bucket counts are unbounded, so that the overflow of `size_t` in a growth is not modelled.
- HashMap: hashmap_probe and the setters of the allocator would add easy members only.
- Ids.BucketIndex: the table must have a bucket for each index that occurs; what the source does beyond its eight buckets, which is to read outside the array, is not modelled.
- LookupModel.LookupMeetsAll: asks that reachable peers of the same id reply the same; LookupMeetsLeast, MeetsEveryoneIff and NetworkFindsNearestIff are the statements for every network.
- Stability.StableIff: speaks of vectors of different elements, as vectors of pointers are; equal entries could not be told apart.
- Lookup: sockets, packets and malformed replies are `NoAnswer`; a reply carries no more peers or owners than its struct has room for.
- Vector: elements are values, never NULL.
- Storage: other fields of the storage and the printing of items are left out; a use of the NULL map is the end of the run (`crashed`).
- Rpc: the confirmation packets, PING, uploads and downloads (which combine a lookup with HTTP and STORE packets), and the checks of packet sizes.
- Magnet: create_magnet and the fields that are always NULL; sprintf, sscanf, regexec and atoi are modelled by what they do on these arguments; names shorter than the address space, so that `uri_size` does not overflow.
- Commands: a failure of command_init returns -1 before anything is shared; signals are not needed, because pthread_cond_wait may return at any time; that the worker reads `count` without the lock is one atomic read. Stopping the client and tearing down the queue are left out.
- CommandProgress.CanReturn: says that a return stays possible, not that a fair scheduler brings it about.
- `last_seen`, public keys and the scheduling of broadcasts are left out.
- HTTP, the command line, logging and the file system are left out.
