# Hash maps with prime capacities, modelled and verified in Dafny

This project models two string-keyed hash maps that share a prime-capacity
policy, and `find_mode`, a client of one of them.

- **Open addressing** (`hash_map_oa.py`). One array of slots. A slot is
  empty, a live entry, or an entry marked as a tombstone. Keys are placed
  by quadratic probing: probe `j` of a key looks at slot
  `(hash(key) mod capacity + j²) mod capacity`.
  - `put` takes the first empty slot, the key's own slot, or the first
    tombstone it meets. It first rebuilds the table at twice the capacity
    once the load reaches one half.
  - `remove` marks the entry as a tombstone.
  - `get`, `contains_key` and `remove` scan until they reach an empty slot.
- **Separate chaining** (`hash_map_sc.py`). One array of bucket lists.
  - `put` overwrites the key's node or inserts a new node at the head of
    its bucket. It rebuilds the table at twice the capacity once the size
    reaches the capacity.
  - `find_mode` counts the tokens of a sequence in such a map. It returns
    the largest count and the tokens that have it.

Both maps round every capacity to the least odd prime at or above it. The
rebuild (`resize_table`) collects all pairs with `get_keys_and_values`.
It then puts them back one by one into a fresh array, through `put`.
Because `put` and `resize_table` call each other, each method carries an
integer measure. The measures show that a rebuild started by `put` never rebuilds again
while it refills: the doubled capacity keeps the load that each refilling
`put` tests below its limit. A `resize_table` called directly with a
capacity close to the size can leave the chaining load at 1.0, or the
open-addressing load above one half. The next `put` then rebuilds again.

The files are:

- `primes.dfy` (module `Primes`): `_is_prime` and `_next_prime`, which are
  the same in both sources. It includes a proof that a larger odd prime
  always exists, so the search loop ends.
- `load.dfy` (module `Load`): the two load-factor tests as integer
  comparisons.
- `pairs.dfy` (module `Pairs`): the map that a list of (key, value) pairs
  builds when the pairs are put in order.
- `probing.dfy` (module `Probing`): the slot array as a pure value.
  - `Probe` gives the probe sequence.
  - `FirstStop` gives the first probe at which a scan stops.
  - `Find` is what `get` returns.
  - `PutSlots` and `RemoveSlots` give the array after `put` and `remove`.
  - `Represents(s, hash, m)` says that the array holds exactly the map `m`:
    no tombstones, distinct live keys, every entry reachable along its
    probe chain, and every key of `m` found with its value.
- `oa_map.dfy` (module `OpenAddressing`): the open-addressing class. Its
  fields are an `array<Slot<V>>`, the capacity, the size and the hash
  function. Each method is proved against the functions of `Probing`.
- `chains.dfy` (module `Chains`): a bucket as a sequence of nodes, and the
  table as a sequence of buckets. It defines lookup, put and remove on one
  bucket and on the whole table, and `Flatten`, the pairs in index order.
- `sc_map.dfy` (module `SeparateChaining`): the separate-chaining class,
  with a field `array<seq<Node<V>>>`, and `FindMode`.
- `frequency.dfy` (module `Frequency`): the pure definition of the mode:
  - `Count` of a token;
  - `MaxFreq`, the largest count;
  - `Modes`, the modal tokens in the order in which they reached that count;
  - `Reach`, the position of a token's f-th occurrence.

The hash function is a parameter of type `string -> nat`. Values are of a
type parameter `V`.

In three places the code does something other than what a reader of its
comments might expect. The model follows the code:

- `_next_prime` returns the least *odd* prime at or above its argument,
  so 2 becomes 3. `resize_table` keeps a request that is already prime,
  so 2 can still be reached that way.
- The load is checked *before* the insertion. After an open-addressing
  `put` the load can therefore exceed one half: with two entries in
  capacity 5 the test 4 >= 5 fails, so a third entry goes in and the load
  is 0.6. The invariant that holds is 2·size <= capacity + 1. In such a
  table a lookup of an absent key can loop forever even without
  tombstones (`UnendingExample`): the squares modulo 5 are 0, 1 and 4, so
  from home 0 the probes only visit slots 0, 1 and 4. While fewer than
  half of the slots are in use every scan ends (`ScanEndsBelowHalf`).
  After a chaining `put` the size can equal the capacity, but it never
  exceeds it.
- Open addressing: `put` takes the first tombstone with a different key.
  A live entry for the same key further down the probe chain then stays.
  Two live entries for one key can only arise this way, through a
  tombstone, but they outlive it: once the tombstone is overwritten the
  table has no tombstones and still holds the key twice
  (`DuplicateAfterTombstone`). The map view of a table therefore needs
  both no tombstones and distinct keys. The invariant that always holds
  is that size counts the live slots.
- Open addressing: removing a key that is held twice marks the front
  entry. A lookup then returns the older value, and every further remove
  of that key changes nothing, so the key can no longer be removed
  (`StaleAfterRemove`).

## Model

| member | source | states |
|---|---|---|
| Primes.IsPrimeTest | hash_map_oa.py:52-70 | for n >= 0 the answer is true exactly when n is prime; for a negative n it is true exactly when n is odd, as the source's tests give |
| Primes.NextPrime | hash_map_oa.py:39-50 | for n >= 0 the result is the least odd prime that is at least n (an even n is first bumped to n + 1) |
| Primes.NextPrimeExamples | hash_map_oa.py:264-270 | 20 rounds to 23, 30 to 31, 1 to 3 and 2 to 3 |
| Primes.OddPrimeAtLeast | hash_map_oa.py:47-48 | above every n there is an odd prime, so the search by steps of two ends |
| Primes.NoZeroDivisors | hash_map_oa.py:113 | modulo a prime p, a product of two non-zero residues is non-zero (what makes the quadratic probes distinct) |
| Pairs.Assoc | hash_map_sc.py:130-133 | defines the map built by putting pairs in order, a later pair overriding an earlier one (the refill of both rebuilds) |
| Load.LoadHalf | hash_map_oa.py:93 | `size / capacity >= 0.5` holds exactly when 2·size >= capacity |
| Load.LoadOne | hash_map_sc.py:96 | `size / capacity >= 1.0` holds exactly when size >= capacity |
| Probing.Probe | hash_map_oa.py:113 | the probe index lies inside the array |
| Probing.ProbePeriodic | hash_map_oa.py:113 | probe j + capacity is probe j, so the scans of get, contains_key and remove are bounded at capacity probes |
| Probing.DistinctProbes | hash_map_oa.py:113 | for a prime capacity p, probes i < j with i + j < p land on different slots |
| Probing.ProbeImageCard | hash_map_oa.py:113 | the first m probes hit m distinct slots when 2m <= p + 1 |
| Probing.FirstStop | hash_map_oa.py:99-113 | the first probe at which the scan stops under the given rule, with no earlier probe stopping, or none within capacity probes |
| Probing.ProbeMod | hash_map_oa.py:113 | probe j visits the same slot as probe j mod capacity |
| Probing.NoStopEver | hash_map_oa.py:165-169 | a scan finds no stop within capacity probes exactly when no probe at all stops it, so `None` is a loop that never ends |
| Probing.Find | hash_map_oa.py:156-169 | defines get: the value of the live slot with the key where the scan first stops, `Miss` when an empty slot comes first, `Unending` when the scan never stops |
| Probing.PutIndex | hash_map_oa.py:95-113 | defines the slot put writes: where its probe first meets an empty slot, a slot with the key, or a tombstone; it lies inside the array |
| Probing.PutSlots | hash_map_oa.py:99-115 | defines put's write: a live entry with the key and the value at PutIndex, every other slot as before |
| Probing.RemoveSlots | hash_map_oa.py:187-203 | defines remove: the first slot holding the key becomes a tombstone when it is live; nothing changes when an empty slot comes first |
| Probing.LivePairs | hash_map_oa.py:206-214 | defines the pairs of the live slots, in index order |
| Probing.Represents | hash_map_oa.py:156-169 | defines "the array holds map m": no tombstones, distinct live keys, every entry reachable, the live keys are m's keys, and get finds each with m's value |
| Probing.FreeSlotEarly | hash_map_oa.py:93-115 | below half load, the probe loop of put stops within as many probes as there are live entries |
| Probing.ScanEndsBelowHalf | hash_map_oa.py:165-203 | while fewer than half of the slots are in use, every scan stops within as many probes as there are used slots plus one, so get never loops forever |
| Probing.UnendingExample | hash_map_oa.py:93-169 | three puts at homes 0, 1 and 4 into capacity 5, each passing the load test, leave a table in which a lookup from home 0 never ends |
| Probing.DuplicateAfterTombstone | hash_map_oa.py:99-110 | put x, put k, remove x and put k again, all at home 0 in capacity 5, leave a table without tombstones that holds k twice |
| Probing.StaleAfterRemove | hash_map_oa.py:196-201 | removing k from that table marks its front entry; get then finds the older value, and removing k again changes nothing |
| Probing.FindStopsAt | hash_map_oa.py:165-169 | get returns the value of the live entry holding the key where the scan stops, and nothing at an empty slot |
| Probing.FoundIffLive | hash_map_oa.py:156-169 | when every entry is reachable along its probe chain, get hits exactly for the live keys |
| Probing.PutFindsKey | hash_map_oa.py:99-115 | after put the key is found with the new value |
| Probing.PutKeepsHit | hash_map_oa.py:99-115 | after put every other key that was found is found with the same value |
| Probing.PutKeepsHits | hash_map_oa.py:99-115 | after put every other key of a map the table held is still found with its value |
| Probing.PutLiveKeys | hash_map_oa.py:99-115 | put adds the key to the live keys and removes none |
| Probing.PutLiveSet | hash_map_oa.py:101-115 | put makes the written slot live; the live count grows by one unless that slot held a live entry, which then had the same key (the size bookkeeping of lines 103, 109 and 115) |
| Probing.PutReachable | hash_map_oa.py:99-115 | put keeps every entry reachable along its probe chain |
| Probing.PutKeepsUnique | hash_map_oa.py:99-115 | without tombstones put keeps the live keys distinct, and writes an empty slot exactly when the key is new |
| Probing.RemoveStopsAt | hash_map_oa.py:193-203 | remove marks the live entry holding the key where its scan stops as a tombstone, and changes nothing otherwise |
| Probing.RemoveEffects | hash_map_oa.py:187-203 | remove keeps the empty slots and the reachability, only shrinks the live keys, and lowers the live count by one exactly when it marked a live entry |
| Probing.RemoveDeletes | hash_map_oa.py:187-203 | without tombstones and with distinct keys, remove deletes exactly the key |
| Probing.RemoveKeepsFind | hash_map_oa.py:187-203 | on any table, remove leaves the lookup of every other key unchanged |
| Probing.SameStopWithoutTombstones | hash_map_oa.py:196-197 | without tombstones the scans of remove and get stop at the same probe |
| Probing.Occupied | hash_map_oa.py:231-240 | the traversal yields only entries (tombstones included) and no more than the array holds |
| Probing.OccupiedCount | hash_map_oa.py:224-240 | the traversed entries and the empty slots add up to the capacity |
| Probing.LivePairsOfOccupied | hash_map_oa.py:211-213 | dropping tombstones from the traversal gives the live pairs in index order |
| Probing.LivePairsCount | hash_map_oa.py:206-214 | one pair per live slot |
| Probing.KeysCount | hash_map_oa.py:206-214 | there are at most as many live keys as live slots, and exactly as many when the keys are distinct |
| Probing.AssocOfLivePairs | hash_map_oa.py:206-214 | the map that the live pairs build has exactly the live keys, each with the value of a live entry holding it |
| Probing.UniqueHitIsAssoc | hash_map_oa.py:156-169 | with distinct keys, what get finds is what the map of the live pairs holds |
| Probing.AllEmpty | hash_map_oa.py:216-222 | an all-empty array has no live entry, and get misses every key |
| Probing.RepresentsFacts | hash_map_oa.py:206-214 | a table that holds map m has m as the map of its live pairs, as many live slots as m has keys, and misses every key outside m |
| Probing.RepresentsPut | hash_map_oa.py:88-115 | below half load, put on a table that holds m gives a table that holds m with key set to value |
| OpenAddressing.HashMap.constructor | hash_map_oa.py:13-27 | the capacity is the least odd prime at or above the hint, every slot is empty, and no key is found |
| OpenAddressing.HashMap.TableLoad | hash_map_oa.py:141-145 | the load is at least one half exactly when 2·size >= capacity |
| OpenAddressing.HashMap.Put | hash_map_oa.py:88-115 | the key is then found with the value, and a table that held m holds m with key set to value. Below half load the array is changed in place as PutSlots says, with size up by one exactly when no live entry was overwritten. Otherwise the capacity becomes the least odd prime at or above twice the old one |
| OpenAddressing.HashMap.Insert | hash_map_oa.py:95-115 | the probe loop finds a stop, the array becomes PutSlots of the old one, and size grows exactly when the written slot held no live entry |
| OpenAddressing.HashMap.ResizeTable | hash_map_oa.py:118-139 | a capacity below the size changes nothing. Otherwise the capacity is at least the requested one (exactly the request when it is prime, else the next odd prime, when the pairs fit), and the table holds the map of the old live pairs |
| OpenAddressing.HashMap.Reinsert | hash_map_oa.py:136-139 | putting the pairs back into an empty table gives a table that holds the map they build, with the capacity unchanged when they fit below half load |
| OpenAddressing.HashMap.EmptyBuckets | hash_map_oa.py:147-155 | the result is the number of empty slots, and it is at most capacity − size |
| OpenAddressing.HashMap.Get | hash_map_oa.py:156-169 | the result is Find over at most capacity probes; a hit happens exactly for a live key |
| OpenAddressing.HashMap.ContainsKey | hash_map_oa.py:171-185 | true exactly for a live key; no answer exactly when the source's scan would never end |
| OpenAddressing.HashMap.Remove | hash_map_oa.py:187-203 | the array becomes RemoveSlots of the old one. Every other key is found as before, empty slots are unchanged and live keys only shrink. Without tombstones, and with distinct keys, exactly the key is deleted |
| OpenAddressing.HashMap.GetKeysAndValues | hash_map_oa.py:206-214 | the live pairs in index order, exactly size of them |
| OpenAddressing.HashMap.Clear | hash_map_oa.py:216-222 | every slot is empty, size is 0, the capacity stays, and no key is found |
| OpenAddressing.HashMap.Entries | hash_map_oa.py:224-240 | the traversal yields every non-empty slot in index order, tombstones included; with the empty slots they make up the capacity |
| Chains.IndexOf | hash_map_sc.py:101-105 | the position of the first node holding the key, or none when no node holds it |
| Chains.ChainGet | hash_map_sc.py:159-162 | defines the bucket lookup: the value of the first node holding the key, or none |
| Chains.TableGet | hash_map_sc.py:152-162 | defines get: the bucket lookup in bucket hash(key) mod capacity |
| Chains.PutChain | hash_map_sc.py:102-110 | defines the bucket write: the first node holding the key gets the value, or a new node goes to the head |
| Chains.PutTable | hash_map_sc.py:98-110 | defines put's write: PutChain on the key's bucket, every other bucket as before |
| Chains.RemoveTable | hash_map_sc.py:179-185 | defines remove: ChainRemove on the key's bucket, every other bucket as before |
| Chains.Flatten | hash_map_sc.py:187-195 | defines the pairs bucket after bucket, each bucket from its head |
| Chains.Placed | hash_map_sc.py:98-99 | defines the placement: each bucket holds distinct keys, all hashing to its index |
| Chains.ChainRemove | hash_map_sc.py:181-185 | the bucket without its first node holding the key; the flag is true exactly when there was one |
| Chains.ChainGetKeys | hash_map_sc.py:152-162 | a bucket lookup succeeds exactly for the keys in the bucket |
| Chains.PutChainEffects | hash_map_sc.py:99-110 | put on a bucket finds the key with the value and every other key as before; the bucket grows by one exactly when the key was new; its keys stay distinct |
| Chains.RemoveChainEffects | hash_map_sc.py:175-185 | remove on a bucket loses the key and keeps every other key; the bucket shrinks by one exactly when the key was there; its keys stay distinct |
| Chains.ChainAssoc | hash_map_sc.py:190-194 | the pairs of a bucket with distinct keys build a map that agrees with the bucket's lookup |
| Chains.ChainKeys | hash_map_sc.py:190-194 | a bucket with distinct keys has as many keys as nodes, and they are the keys of its map |
| Chains.FlattenPrefix | hash_map_sc.py:187-195 | the pairs of the first n buckets build the map of the keys that hash below n, with one key per pair |
| Chains.FlattenLookup | hash_map_sc.py:187-195 | a lookup in the table agrees with the map built from all its pairs, which has one key per pair |
| Chains.NonEmptyBound | hash_map_sc.py:142-150 | at most as many buckets are non-empty as there are pairs |
| Chains.AllEmpty | hash_map_sc.py:197-203 | a table of empty buckets is well placed, has no pairs, and finds no key |
| Chains.AllEmptyCount | hash_map_sc.py:197-203 | in a table of empty buckets every bucket counts as empty |
| Chains.PutTableEffects | hash_map_sc.py:97-110 | put on the table keeps every bucket well placed, finds the key with the value and every other key as before, and adds one pair exactly when the key was new |
| Chains.RemoveTableEffects | hash_map_sc.py:175-185 | remove on the table keeps the buckets well placed, loses the key, keeps every other key, and removes one pair exactly when the key was there (then the list's remove reports true) |
| SeparateChaining.HashMap.constructor | hash_map_sc.py:14-30 | the capacity is the least odd prime at or above the hint, every bucket is empty, and no key is found |
| SeparateChaining.HashMap.TableLoad | hash_map_sc.py:136-140 | the load is at least one exactly when size >= capacity |
| SeparateChaining.HashMap.Put | hash_map_sc.py:91-110 | the key is then found with the value, every other key as before, and size grows exactly when the key was new; the size never exceeds the capacity afterwards. Below a full load only the key's bucket changes, as PutTable says; at a full load the capacity becomes the least odd prime at or above twice the old one |
| SeparateChaining.HashMap.Insert | hash_map_sc.py:97-110 | called only below a full load; the buckets become PutTable of the old ones, with the same lookups and size change as Put |
| SeparateChaining.HashMap.ResizeTable | hash_map_sc.py:112-133 | a capacity below 1 changes nothing. Any other capacity is taken even below the size: the capacity is then at least the request, and exactly the request (or the next odd prime when it is not prime) when the pairs fit. Every lookup and the size are unchanged, and the size is at most the new capacity, since the refill rebuilds again when needed |
| SeparateChaining.HashMap.Reset | hash_map_sc.py:122-128 | a fresh array of empty buckets at the new prime capacity, with size 0 |
| SeparateChaining.HashMap.Reinsert | hash_map_sc.py:129-133 | putting the pairs back into empty buckets gives the lookups of the map they build, with that map's number of keys as size |
| SeparateChaining.HashMap.PutNext | hash_map_sc.py:130-133 | one re-insertion turns a table that holds m into one that holds m with key set to value |
| SeparateChaining.HashMap.EmptyBuckets | hash_map_sc.py:142-150 | the result is the number of empty buckets, and capacity minus it is at most size |
| SeparateChaining.HashMap.Get | hash_map_sc.py:152-162 | the value of the first node holding the key in its bucket, which is what the map of all pairs holds |
| SeparateChaining.HashMap.ContainsKey | hash_map_sc.py:164-173 | true exactly when a lookup finds the key, that is when the key is in the map of all pairs |
| SeparateChaining.HashMap.Remove | hash_map_sc.py:175-185 | the buckets become RemoveTable of the old ones, the key is no longer found, other keys are found as before, and size drops exactly when the key was there |
| SeparateChaining.HashMap.GetKeysAndValues | hash_map_sc.py:187-195 | all pairs, bucket after bucket and each bucket from its head; exactly size of them, no key twice, and the map they build agrees with every lookup |
| SeparateChaining.HashMap.Clear | hash_map_sc.py:197-203 | every bucket is empty, size is 0, the capacity stays, every bucket counts as empty, and no key is found |
| SeparateChaining.CountToken | hash_map_sc.py:215-220 | the count returned is the token's occurrences so far (absent meaning 0), and afterwards the map holds the counts including this token |
| SeparateChaining.FindMode | hash_map_sc.py:206-231 | the result is (Modes, MaxFreq) of the input: no token occurs more often, the modal tokens are exactly those occurring that often, and the list is empty exactly for the empty input |
| SeparateChaining.ModeStep | hash_map_sc.py:216-229 | one iteration: the count map and the pair (mode, max_freq) go from those of the prefix to those of the prefix extended by the token |
| Frequency.Reach | hash_map_sc.py:221-229 | one past the index of the f-th occurrence of the token |
| Frequency.Count | hash_map_sc.py:215-220 | defines the number of occurrences of a token |
| Frequency.MaxFreq | hash_map_sc.py:221-223 | defines the largest count of a prefix, raised when a token's count passes it |
| Frequency.Modes | hash_map_sc.py:221-229 | defines the mode list: restarted at a token whose count passes the maximum, extended by one whose count equals it |
| Frequency.CountPositive | hash_map_sc.py:216-218 | a token has a positive count exactly when it occurs, so the lookup in find_mode misses exactly on a first occurrence |
| Frequency.TallyStep | hash_map_sc.py:216-220 | one more token raises its entry in the count map by one and leaves the other entries |
| Frequency.CountMultiset | hash_map_sc.py:206-231 | the count of a token is its multiplicity in the sequence |
| Frequency.MaxFreqIsMax | hash_map_sc.py:221-223 | no token occurs more often than the maximal frequency, which is 0 only for the empty sequence |
| Frequency.ModesExactly | hash_map_sc.py:206-231 | a token is modal exactly when it occurs the maximal number of times; there is a modal token exactly when the input is not empty |
| Frequency.ModesOrdered | hash_map_sc.py:221-229 | the modal tokens are listed in the order in which they reached the maximal count, so none is listed twice |
| Frequency.AppendStep | hash_map_sc.py:221-229 | the update rule: a count passing the maximum restarts the mode list, and a count equal to it appends |
| Frequency.SingleModeExample | hash_map_sc.py:418-422 | ["apple", "apple", "grape", "melon", "peach"] gives (["apple"], 2) |

## Left out

- The `__str__` dumps and the `__main__` drivers of both files. They only print. The drivers' scenarios appear only as the example lemmas.
- The concrete hash functions of the supporting module. The hash is a parameter of type `string -> nat`.
- The supporting `DynamicArray`, `LinkedList` and `HashEntry` classes. They are not part of this model: an array, a sequence of nodes per bucket, and the `Slot` datatype stand in for them.
- `get_size` and `get_capacity`. They only return a field; the model reads the fields `size` and `capacity` directly.
- OpenAddressing.HashMap.Get: the source's scan never ends when the probe sequence meets no empty slot. The model stops after capacity probes, because the sequence repeats with that period (`NoStopEver`), and returns `Unending` there. ContainsKey (`None`) and Remove (`halted` false) do the same.
- OpenAddressing.HashMap.Entries: models only the traversal that `__iter__` and `__next__` perform. The iterator's `_index` field is not modelled.
- OpenAddressing.HashMap.TableLoad: the float division is modelled as exact `real` division. Its comparison with 0.5 is proved equal to an integer test. Rounding of Python floats is not modelled.
- SeparateChaining.HashMap.TableLoad: the same, for the comparison with 1.0.
- OpenAddressing.HashMap.constructor: requires a non-negative capacity hint. A negative hint would give the source a negative capacity (for example, -2 becomes -1, which the primality test accepts).
- SeparateChaining.HashMap.constructor: requires a non-negative capacity hint, for the same reason.
- OpenAddressing.HashMap.Put: the table is only known to hold a map when it has no tombstones and no key twice. Once a put has reused a tombstone, the source can keep a second live entry for the key further down the probe chain, and that entry stays after the tombstone is gone. Put then states the array update and the size, not a map.
- OpenAddressing.HashMap.Remove: the exact deletion of the key is stated only for a table without tombstones and with distinct keys. With tombstones, only "live keys shrink" is stated.
- SeparateChaining.FindMode: the counting map takes the hash function as a parameter. The source uses its default hash function at the default capacity 11. The three-token tie from the drivers is not restated as a lemma. ModesOrdered covers ties in general.
- The source iterates its `LinkedList` and `DynamicArray` through their own iterators. The model scans sequences and arrays by index.
