/** The open-addressing hash map: an array of slots of prime length,
    quadratic probing from hash(key) mod capacity, removal by tombstone,
    and a rebuild into a larger prime-length array once the table is half
    full. The slot-array semantics live in module Probing; the class below
    keeps the source's state and its step-by-step loops and is proved
    against those functions. */
module OpenAddressing {
  import opened Primes
  import opened Options
  import opened Probing
  import opened Pairs
  import opened Load

  class HashMap<V> {
    var buckets: array<Slot<V>>
    var capacity: nat
    var size: nat
    const hash: string -> nat

    /** The capacity is the array length and prime, size counts the live
        slots, the table is at most half full (rounding up), and every
        entry can be found along its key's probe sequence. */
    ghost predicate Valid()
      reads this, buckets
    {
      && buckets.Length == capacity
      && IsPrime(capacity)
      && size == |LiveSet(buckets[..])|
      && 2 * size <= capacity + 1
      && AllReachable(buckets[..], hash)
    }

    /** What a lookup of key finds in the current table. */
    ghost function Lookup(key: string): Search<V>
      reads this, buckets
      requires Valid()
    {
      Find(buckets[..], hash(key) % capacity, key)
    }

    /** The capacity hint is rounded to the least odd prime at or above it
        and every slot starts empty. */
    constructor (initialCapacity: int, hashFunction: string -> nat)
      requires initialCapacity >= 0
      ensures Valid() && fresh(buckets) && hash == hashFunction
      ensures IsNextOddPrime(initialCapacity, capacity) && size == 0
      ensures forall i :: 0 <= i < capacity ==> buckets[i].Empty?
      ensures forall k :: Lookup(k) == Miss
    {
      var c := NextPrime(initialCapacity);
      buckets := new Slot<V>[c](_ => Empty);
      capacity := c;
      hash := hashFunction;
      size := 0;
      new;
      AllEmpty(buckets[..], hash);
    }

    /** The load factor size / capacity; it is at least one half exactly
        when twice the size reaches the capacity. */
    function TableLoad(): (load: real)
      reads this
      requires capacity > 0
      ensures load >= 0.0
      ensures load >= 0.5 <==> 2 * size >= capacity
    {
      LoadHalf(size, capacity);
      size as real / capacity as real
    }

    /** Inserts or overwrites key. Once the table is at least half full it
        is first rebuilt at the next odd prime at or above twice its
        capacity. Afterwards key is found with value. Without a rebuild the slot array changes exactly as PutSlots
        says; after one, the table holds the old live pairs (the later of two
        for the same key) plus the new pair. A table that held a map m holds
        m updated at key. */
    method Put(key: string, value: V)
      requires Valid()
      modifies this, buckets
      ensures Valid()
      ensures buckets == old(buckets) || fresh(buckets)
      ensures Lookup(key) == Hit(value)
      ensures forall m :: Represents(old(buckets[..]), hash, m) ==> Represents(buckets[..], hash, m[key := value])
      ensures 2 * old(size) < old(capacity) ==>
        && buckets == old(buckets) && capacity == old(capacity)
        && FirstStop(old(buckets[..]), hash(key) % capacity, key, UntilFree, 0).Some?
        && buckets[..] == PutSlots(old(buckets[..]), hash(key) % capacity, key, value)
        && size == old(size) + if Live(old(buckets[..])[PutIndex(old(buckets[..]), hash(key) % capacity, key)]) then 0 else 1
      ensures 2 * old(size) >= old(capacity) ==>
        && IsNextOddPrime(2 * old(capacity), capacity)
        && Represents(buckets[..], hash, Assoc(old(LivePairs(buckets[..])))[key := value])
      decreases if 2 * size >= capacity then 4 else 0
    {
      ghost var s0 := buckets[..];
      if TableLoad() >= 0.5 {
        assert (2 * capacity) % 2 == 0;
        ResizeTable(capacity * 2);
      }
      ghost var s := buckets[..];
      Insert(key, value);
      PutFindsKey(s, hash(key) % capacity, key, value);
      forall m | Represents(s0, hash, m)
        ensures Represents(buckets[..], hash, m[key := value])
      {
        RepresentsFacts(s0, hash, m);
        RepresentsPut(s, hash, m, key, value);
      }
      if s != s0 {
        RepresentsPut(s, hash, Assoc(LivePairs(s0)), key, value);
      }
    }

    /** The probe-and-write half of put, on a table less than half full: the
        probe stops at the first empty slot, slot holding key (live or
        tombstone) or tombstone of another key, and a live entry is written
        there; size grows unless a live entry for key was overwritten. */
    method Insert(key: string, value: V)
      requires Valid() && 2 * size < capacity
      modifies buckets, this`size
      ensures Valid()
      ensures FirstStop(old(buckets[..]), hash(key) % capacity, key, UntilFree, 0).Some?
      ensures buckets[..] == PutSlots(old(buckets[..]), hash(key) % capacity, key, value)
      ensures size == old(size) + if Live(old(buckets[..])[PutIndex(old(buckets[..]), hash(key) % capacity, key)]) then 0 else 1
    {
      ghost var s := buckets[..];
      var home := hash(key) % capacity;
      FreeSlotEarly(s, home, key);
      ghost var stop := FirstStop(s, home, key, UntilFree, 0).value;
      var idx := home;
      ProbeZero(home, capacity);
      var j := 0;
      while buckets[idx].Entry?
        invariant 0 <= j <= stop && idx == Probe(home, j, capacity)
        decreases stop - j
      {
        if buckets[idx].key == key || buckets[idx].tombstone {
          break;
        }
        j := j + 1;
        idx := (home + j * j) % capacity;
      }
      assert idx == PutIndex(s, home, key);
      if buckets[idx].Entry? && buckets[idx].key == key {
        if buckets[idx].tombstone {
          size := size + 1;
        }
      } else {
        size := size + 1;
      }
      buckets[idx] := Entry(key, value, false);
      PutLiveSet(s, home, key, value);
      PutReachable(s, hash, key, value);
    }

    /** Rebuilds the table at newCapacity, rounded up to the least odd
        prime when it is not prime itself; a capacity below the size is
        ignored. The live pairs are collected in index order and put back
        one by one into an all-empty array, so afterwards the table holds
        exactly the map built from those pairs (the later of two for the
        same key), without tombstones. When the pairs fit, the reinsertion
        never resizes again and the capacity is exactly the rounded one. */
    method ResizeTable(newCapacity: int)
      requires Valid()
      modifies this, buckets
      ensures Valid()
      ensures buckets == old(buckets) || fresh(buckets)
      ensures newCapacity < old(size) ==>
        buckets == old(buckets) && capacity == old(capacity) && size == old(size) && buckets[..] == old(buckets[..])
      ensures newCapacity >= old(size) ==> capacity >= newCapacity && size <= old(size)
      ensures newCapacity >= old(size) ==> Represents(buckets[..], hash, Assoc(old(LivePairs(buckets[..]))))
      ensures newCapacity >= old(size) && 2 * old(size) <= newCapacity + 1 ==>
        && (IsPrime(newCapacity) ==> capacity == newCapacity)
        && (!IsPrime(newCapacity) ==> IsNextOddPrime(newCapacity, capacity))
      decreases if newCapacity < size then 0 else if 2 * size <= newCapacity + 1 then 2 else 6
    {
      if newCapacity < size {
        return;
      }
      ghost var s0 := buckets[..];
      var c := newCapacity;
      var prime := IsPrimeTest(c);
      if !prime {
        c := NextPrime(c);
      }
      var existing := GetKeysAndValues();
      buckets := new Slot<V>[c](_ => Empty);
      capacity := c;
      size := 0;
      AllEmpty(buckets[..], hash);
      Reinsert(existing);
    }

    /** The second half of the rebuild: the pairs are put one by one, in
        order, into a table holding no entries; afterwards it holds the map
        they build. Put may rebuild again only when the pairs exceed half
        the capacity. */
    method Reinsert(existing: seq<(string, V)>)
      requires Valid() && Represents(buckets[..], hash, map[])
      modifies this, buckets
      ensures Valid() && (buckets == old(buckets) || fresh(buckets))
      ensures capacity >= old(capacity)
      ensures 2 * |existing| <= old(capacity) + 1 ==> capacity == old(capacity)
      ensures Represents(buckets[..], hash, Assoc(existing)) && size <= |existing|
      decreases if 2 * |existing| <= capacity + 1 then 1 else 5
    {
      ghost var m: map<string, V> := map[];
      for index := 0 to |existing|
        invariant Valid() && (buckets == old(buckets) || fresh(buckets))
        invariant capacity >= old(capacity)
        invariant 2 * |existing| <= old(capacity) + 1 ==> capacity == old(capacity)
        invariant m == Assoc(existing[..index])
        invariant Represents(buckets[..], hash, m)
      {
        var key := existing[index].0;
        var value := existing[index].1;
        RepresentsFacts(buckets[..], hash, m);
        AssocKeysCount(existing[..index]);
        Put(key, value);
        AssocPrefix(existing, index);
        m := m[key := value];
      }
      assert existing[..|existing|] == existing;
      RepresentsFacts(buckets[..], hash, m);
      AssocKeysCount(existing);
    }

    /** Counts the empty slots; tombstones are not empty. Together with the
        live slots they never exceed the capacity. */
    method EmptyBuckets() returns (n: nat)
      requires Valid()
      ensures n == |EmptySet(buckets[..])|
      ensures n + size <= capacity
    {
      n := 0;
      for index := 0 to capacity
        invariant n == |EmptyBelow(buckets[..], index)|
      {
        EmptyBelowStep(buckets[..], index);
        if buckets[index].Empty? {
          n := n + 1;
        }
      }
      assert EmptyBelow(buckets[..], capacity) == EmptySet(buckets[..]);
      OccupiedCount(buckets[..]);
      LivePairsOfOccupied(buckets[..]);
      LivePairsShorter(Occupied(buckets[..]));
      LivePairsCount(buckets[..]);
    }

    /** The value of the first live slot holding key along its probe
        sequence, Miss once an empty slot is reached, and Unending when a
        whole period of the sequence passes without either (the source keeps
        probing forever there). With every entry reachable, a hit happens
        exactly when some live slot holds the key. */
    method Get(key: string) returns (r: Search<V>)
      requires Valid()
      ensures r == Lookup(key)
      ensures r.Hit? <==> key in LiveKeys(buckets[..])
    {
      var home := hash(key) % capacity;
      var idx := home;
      ProbeZero(home, capacity);
      var j := 0;
      while j < capacity
        invariant 0 <= j <= capacity && idx == Probe(home, j, capacity)
        invariant forall t :: 0 <= t < j ==> !Stops(buckets[Probe(home, t, capacity)], key, UntilLive)
      {
        if buckets[idx].Empty? {
          FindStopsAt(buckets[..], home, key, j);
          FoundIffLive(buckets[..], hash, key);
          return Miss;
        }
        if buckets[idx].key == key && !buckets[idx].tombstone {
          FindStopsAt(buckets[..], home, key, j);
          FoundIffLive(buckets[..], hash, key);
          return Hit(buckets[idx].value);
        }
        j := j + 1;
        idx := (home + j * j) % capacity;
      }
      FoundIffLive(buckets[..], hash, key);
      return Unending;
    }

    /** Whether a lookup of key ends at a live slot holding it; None when the
        search would not end. */
    method ContainsKey(key: string) returns (r: Option<bool>)
      requires Valid()
      ensures r.None? <==> Lookup(key).Unending?
      ensures r == Some(true) <==> key in LiveKeys(buckets[..])
    {
      FoundIffLive(buckets[..], hash, key);
      var home := hash(key) % capacity;
      var idx := home;
      ProbeZero(home, capacity);
      var j := 0;
      while j < capacity
        invariant 0 <= j <= capacity && idx == Probe(home, j, capacity)
        invariant forall t :: 0 <= t < j ==> !Stops(buckets[Probe(home, t, capacity)], key, UntilLive)
      {
        if buckets[idx].Empty? {
          FindStopsAt(buckets[..], home, key, j);
          return Some(false);
        }
        if buckets[idx].key == key && !buckets[idx].tombstone {
          FindStopsAt(buckets[..], home, key, j);
          return Some(true);
        }
        j := j + 1;
        idx := (home + j * j) % capacity;
      }
      return None;
    }

    /** Marks the first slot holding key along its probe sequence as a
        tombstone, if it is live, and decrements the size; stops at an empty
        slot. halted is false when the search would not end. Every other
        key is found as before; in a table without tombstones or duplicate
        keys the key is gone afterwards. */
    method Remove(key: string) returns (halted: bool)
      requires Valid()
      modifies buckets, this`size
      ensures Valid()
      ensures buckets[..] == RemoveSlots(old(buckets[..]), hash(key) % capacity, key)
      ensures halted <==> FirstStop(old(buckets[..]), hash(key) % capacity, key, UntilKey, 0).Some?
      ensures LiveKeys(buckets[..]) <= old(LiveKeys(buckets[..]))
      ensures EmptySet(buckets[..]) == old(EmptySet(buckets[..]))
      ensures old(NoTombstones(buckets[..]) && UniqueKeys(buckets[..])) ==>
        LiveKeys(buckets[..]) == old(LiveKeys(buckets[..])) - {key}
      ensures forall k :: k != key ==> Lookup(k) == old(Lookup(k))
    {
      ghost var s := buckets[..];
      var home := hash(key) % capacity;
      var idx := home;
      ProbeZero(home, capacity);
      var j := 0;
      halted := false;
      while j < capacity
        invariant 0 <= j <= capacity && idx == Probe(home, j, capacity)
        invariant forall t :: 0 <= t < j ==> !Stops(s[Probe(home, t, capacity)], key, UntilKey)
        invariant buckets[..] == s && !halted
      {
        if buckets[idx].Empty? {
          RemoveStopsAt(s, home, key, j);
          halted := true;
          break;
        }
        if buckets[idx].key == key {
          RemoveStopsAt(s, home, key, j);
          if !buckets[idx].tombstone {
            buckets[idx] := buckets[idx].(tombstone := true);
            size := size - 1;
          }
          halted := true;
          break;
        }
        j := j + 1;
        idx := (home + j * j) % capacity;
      }
      assert buckets[..] == RemoveSlots(s, home, key);
      RemoveEffects(s, hash, key);
      if NoTombstones(s) && UniqueKeys(s) {
        RemoveDeletes(s, hash, key);
      }
      forall k | k != key
        ensures Find(buckets[..], hash(k) % capacity, k) == Find(s, hash(k) % capacity, k)
      {
        RemoveKeepsFind(s, home, key, hash(k) % capacity, k);
      }
    }

    /** Empties every slot without changing the capacity; every lookup then
        misses. */
    method Clear()
      requires Valid()
      modifies buckets, this`size
      ensures Valid()
      ensures size == 0 && forall i :: 0 <= i < capacity ==> buckets[i].Empty?
      ensures forall k :: Lookup(k) == Miss
    {
      for index := 0 to capacity
        invariant forall i :: 0 <= i < index ==> buckets[i].Empty?
      {
        buckets[index] := Empty;
      }
      size := 0;
      AllEmpty(buckets[..], hash);
    }

    /** The iterator's traversal: every non-empty slot in index order,
        tombstones included. */
    method Entries() returns (r: seq<Slot<V>>)
      requires Valid()
      ensures r == Occupied(buckets[..])
      ensures forall i :: 0 <= i < |r| ==> r[i].Entry?
      ensures |r| + |EmptySet(buckets[..])| == capacity
    {
      r := [];
      var index := 0;
      while index < buckets.Length
        invariant 0 <= index <= buckets.Length
        invariant r == Occupied(buckets[..index])
      {
        var slot := buckets[index];
        index := index + 1;
        assert buckets[..index][..index - 1] == buckets[..index - 1];
        if slot.Entry? {
          r := r + [slot];
        }
      }
      assert buckets[..index] == buckets[..];
      OccupiedCount(buckets[..]);
    }

    /** The (key, value) pairs of the live slots in index order, one per
        live slot, so as many as the size. */
    method GetKeysAndValues() returns (pairs: seq<(string, V)>)
      requires Valid()
      ensures pairs == LivePairs(buckets[..])
      ensures |pairs| == size
    {
      var entries := Entries();
      pairs := [];
      for i := 0 to |entries|
        invariant pairs == LivePairs(entries[..i])
      {
        assert entries[..i + 1][..i] == entries[..i];
        if !entries[i].tombstone {
          pairs := pairs + [(entries[i].key, entries[i].value)];
        }
      }
      assert entries[..|entries|] == entries;
      LivePairsOfOccupied(buckets[..]);
      LivePairsCount(buckets[..]);
    }
  }
}
