/** The separate-chaining hash map: an array of prime length of bucket
    lists, each key in bucket hash(key) mod capacity, and a rebuild into a
    larger prime-length array once there are as many entries as buckets.
    The bucket semantics live in module Chains; the class below keeps the
    source's state and its loops and is proved against those functions. */
module SeparateChaining {
  import opened Primes
  import opened Options
  import opened Pairs
  import opened Chains
  import opened Load
  import opened Frequency

  class HashMap<V> {
    var buckets: array<seq<Node<V>>>
    var capacity: nat
    var size: nat
    const hash: string -> nat

    /** The capacity is the array length and prime, every bucket holds
        distinct keys that hash to its index, size counts the nodes, and
        there are never more nodes than buckets between calls. */
    ghost predicate Valid()
      reads this, buckets
    {
      && buckets.Length == capacity
      && IsPrime(capacity)
      && Placed(buckets[..], hash)
      && size == |Flatten(buckets[..])|
      && size <= capacity
    }

    /** What a lookup of key finds in the current table. */
    ghost function Lookup(key: string): Option<V>
      reads this, buckets
      requires Valid()
    {
      TableGet(buckets[..], hash, key)
    }

    /** The map the table holds: its pairs put in index order. */
    ghost function Contents(): map<string, V>
      reads this, buckets
    {
      Assoc(Flatten(buckets[..]))
    }

    /** The capacity hint is rounded to the least odd prime at or above it
        and every bucket starts empty. */
    constructor (initialCapacity: int, hashFunction: string -> nat)
      requires initialCapacity >= 0
      ensures Valid() && fresh(buckets) && hash == hashFunction
      ensures IsNextOddPrime(initialCapacity, capacity) && size == 0
      ensures forall i :: 0 <= i < capacity ==> buckets[i] == []
      ensures forall k :: Lookup(k) == None
    {
      var c := NextPrime(initialCapacity);
      buckets := new seq<Node<V>>[c](_ => []);
      capacity := c;
      hash := hashFunction;
      size := 0;
      new;
      AllEmpty(buckets[..], hash);
    }

    /** The load factor size / capacity; it is at least one exactly when
        the size reaches the capacity. */
    function TableLoad(): (load: real)
      reads this
      requires capacity > 0
      ensures load >= 0.0
      ensures load >= 1.0 <==> size >= capacity
    {
      LoadOne(size, capacity);
      size as real / capacity as real
    }

    /** Inserts or overwrites key. Once there are as many entries as
        buckets the table is first rebuilt at twice its capacity, rounded
        to a prime. Afterwards key is found with value, every other key as
        before, and size grew exactly when key was new. Without a rebuild
        only the key's bucket changes, as PutTable says. */
    method Put(key: string, value: V)
      requires Valid()
      modifies this, buckets
      ensures Valid() && (buckets == old(buckets) || fresh(buckets))
      ensures Lookup(key) == Some(value)
      ensures forall k :: k != key ==> Lookup(k) == old(Lookup(k))
      ensures size == old(size) + if old(Lookup(key)).None? then 1 else 0
      ensures old(size) < old(capacity) ==>
        && buckets == old(buckets) && capacity == old(capacity)
        && buckets[..] == PutTable(old(buckets[..]), hash, key, value)
      ensures old(size) >= old(capacity) ==> capacity >= 2 * old(capacity)
      ensures old(size) == old(capacity) ==> IsNextOddPrime(2 * old(capacity), capacity)
      decreases if size < capacity then 0 else 4
    {
      if TableLoad() >= 1.0 {
        assert !IsPrime(capacity * 2) by {
          assert (capacity * 2) % 2 == 0;
        }
        ResizeTable(capacity * 2);
      }
      Insert(key, value);
    }

    /** The scan-and-write half of put: the bucket is scanned from its
        head; a node holding key gets the new value, and otherwise a node
        is inserted at the head and size grows. */
    method Insert(key: string, value: V)
      requires Valid() && size < capacity
      modifies buckets, this`size
      ensures Valid()
      ensures buckets[..] == PutTable(old(buckets[..]), hash, key, value)
      ensures Lookup(key) == Some(value)
      ensures forall k :: k != key ==> Lookup(k) == old(Lookup(k))
      ensures size == old(size) + if old(Lookup(key)).None? then 1 else 0
    {
      ghost var s := buckets[..];
      var h := hash(key) % capacity;
      var bucket := buckets[h];
      var found := false;
      var i := 0;
      while i < |bucket|
        invariant 0 <= i <= |bucket|
        invariant forall j :: 0 <= j < i ==> bucket[j].key != key
      {
        if bucket[i].key == key {
          IndexOfAt(bucket, key, i);
          buckets[h] := bucket[i := Node(key, value)];
          found := true;
          break;
        }
        i := i + 1;
      }
      if !found {
        buckets[h] := [Node(key, value)] + bucket;
        size := size + 1;
      }
      PutTableEffects(s, hash, key, value);
    }

    /** Rebuilds the table at newCapacity, rounded up to the least odd
        prime when it is not prime itself; a capacity below 1 is ignored,
        but any other capacity is taken, even one below the size. The pairs
        are collected in index order and put back one by one into empty
        buckets, so every lookup and the size are unchanged. When the pairs
        fit, the capacity is exactly the rounded one. */
    method ResizeTable(newCapacity: int)
      requires Valid()
      modifies this, buckets
      ensures Valid() && (buckets == old(buckets) || fresh(buckets))
      ensures newCapacity < 1 ==>
        buckets == old(buckets) && capacity == old(capacity) && size == old(size) && buckets[..] == old(buckets[..])
      ensures newCapacity >= 1 ==> capacity >= newCapacity && size == old(size)
      ensures forall k :: Lookup(k) == old(Lookup(k))
      ensures newCapacity >= 1 && old(size) <= newCapacity ==>
        && (IsPrime(newCapacity) ==> capacity == newCapacity)
        && (!IsPrime(newCapacity) ==> IsNextOddPrime(newCapacity, capacity))
      decreases if newCapacity < 1 then 0 else if size <= newCapacity then 3 else 7
    {
      if newCapacity < 1 {
        return;
      }
      var c := newCapacity;
      var prime := IsPrimeTest(c);
      if !prime {
        c := NextPrime(c);
      }
      var existing := GetKeysAndValues();
      Reset(c);
      Reinsert(existing);
    }

    /** The first half of the rebuild: a fresh array of c empty buckets
        replaces the old one. */
    method Reset(c: nat)
      requires IsPrime(c)
      modifies this
      ensures Valid() && fresh(buckets)
      ensures capacity == c && size == 0
      ensures forall k :: Lookup(k) == None
    {
      buckets := new seq<Node<V>>[c](_ => []);
      capacity := c;
      size := 0;
      AllEmpty(buckets[..], hash);
    }

    /** The second half of the rebuild: the pairs are put one by one, in
        order, into empty buckets; afterwards the table holds the map they
        build. Put may rebuild again only when the pairs outnumber the
        buckets. */
    method Reinsert(existing: seq<(string, V)>)
      requires Valid() && size == 0 && forall k :: Lookup(k) == None
      modifies this, buckets
      ensures Valid() && (buckets == old(buckets) || fresh(buckets))
      ensures capacity >= old(capacity)
      ensures |existing| <= old(capacity) ==> capacity == old(capacity)
      ensures forall k :: Lookup(k) == MapGet(Assoc(existing), k)
      ensures size == |Assoc(existing).Keys|
      decreases if |existing| <= capacity then 2 else 6
    {
      for index := 0 to |existing|
        invariant Valid() && (buckets == old(buckets) || fresh(buckets))
        invariant capacity >= old(capacity)
        invariant |existing| <= old(capacity) ==> capacity == old(capacity)
        invariant size == |Assoc(existing[..index]).Keys|
        invariant forall k :: Lookup(k) == MapGet(Assoc(existing[..index]), k)
      {
        AssocKeysCount(existing[..index]);
        PutNext(Assoc(existing[..index]), existing[index].0, existing[index].1);
        AssocPrefix(existing, index);
      }
      assert existing[..|existing|] == existing;
    }

    /** One step of the refill: the table holds the map m and after the
        put it holds m updated at key. */
    method PutNext(ghost m: map<string, V>, key: string, value: V)
      requires Valid()
      requires size == |m.Keys| && forall k :: Lookup(k) == MapGet(m, k)
      modifies this, buckets
      ensures Valid() && (buckets == old(buckets) || fresh(buckets))
      ensures capacity >= old(capacity)
      ensures old(size) < old(capacity) ==> capacity == old(capacity)
      ensures size == |m[key := value].Keys|
      ensures forall k :: Lookup(k) == MapGet(m[key := value], k)
      decreases if size < capacity then 1 else 5
    {
      UpdateKeysCount(m, key, value);
      assert Lookup(key) == MapGet(m, key);
      Put(key, value);
    }

    /** Counts the empty buckets; at most size buckets are non-empty. */
    method EmptyBuckets() returns (n: nat)
      requires Valid()
      ensures n == |EmptyBelow(buckets[..], capacity)|
      ensures capacity - n <= size
    {
      n := 0;
      for index := 0 to capacity
        invariant n == |EmptyBelow(buckets[..], index)|
      {
        EmptyBelowStep(buckets[..], index);
        if |buckets[index]| == 0 {
          n := n + 1;
        }
      }
      NonEmptyBound(buckets[..], capacity);
      assert buckets[..][..capacity] == buckets[..];
    }

    /** Scans the key's bucket from its head and returns the value of the
        first node holding key; this is also what the map of all pairs
        holds for key. */
    method Get(key: string) returns (r: Option<V>)
      requires Valid()
      ensures r == Lookup(key)
      ensures r == MapGet(Contents(), key)
    {
      FlattenLookup(buckets[..], hash);
      var bucket := buckets[hash(key) % capacity];
      var i := 0;
      while i < |bucket|
        invariant 0 <= i <= |bucket|
        invariant forall j :: 0 <= j < i ==> bucket[j].key != key
      {
        if bucket[i].key == key {
          IndexOfAt(bucket, key, i);
          return Some(bucket[i].value);
        }
        i := i + 1;
      }
      return None;
    }

    /** The bucket list's membership test: true exactly when a lookup
        finds key, that is when key is in the map of all pairs. */
    method ContainsKey(key: string) returns (r: bool)
      requires Valid()
      ensures r <==> Lookup(key).Some?
      ensures r <==> key in Contents()
    {
      FlattenLookup(buckets[..], hash);
      r := IndexOf(buckets[hash(key) % capacity], key).Some?;
    }

    /** The bucket list's removal by key; size drops exactly when a node
        was unlinked. Afterwards key is not found and every other key is
        found as before. */
    method Remove(key: string)
      requires Valid()
      modifies buckets, this`size
      ensures Valid()
      ensures buckets[..] == RemoveTable(old(buckets[..]), hash, key)
      ensures Lookup(key) == None
      ensures forall k :: k != key ==> Lookup(k) == old(Lookup(k))
      ensures size == old(size) - if old(Lookup(key)).Some? then 1 else 0
    {
      ghost var s := buckets[..];
      RemoveTableEffects(s, hash, key);
      var h := hash(key) % capacity;
      var (rest, result) := ChainRemove(buckets[h], key);
      buckets[h] := rest;
      if result {
        size := size - 1;
      }
    }

    /** All pairs, bucket after bucket in index order and each bucket from
        its head: one pair per entry, no key twice, and the map they build
        is exactly what the lookups find. */
    method GetKeysAndValues() returns (pairs: seq<(string, V)>)
      requires Valid()
      ensures pairs == Flatten(buckets[..])
      ensures |pairs| == size
      ensures |Assoc(pairs).Keys| == |pairs|
      ensures forall k :: MapGet(Assoc(pairs), k) == Lookup(k)
    {
      pairs := [];
      for index := 0 to capacity
        invariant pairs == Flatten(buckets[..index])
      {
        var bucket := buckets[index];
        for j := 0 to |bucket|
          invariant pairs == Flatten(buckets[..index]) + NodePairs(bucket[..j])
        {
          assert NodePairs(bucket[..j + 1]) == NodePairs(bucket[..j]) + [(bucket[j].key, bucket[j].value)];
          pairs := pairs + [(bucket[j].key, bucket[j].value)];
        }
        assert bucket[..|bucket|] == bucket;
        FlattenStep(buckets[..], index);
        assert buckets[..][..index] == buckets[..index];
        assert buckets[..][..index + 1] == buckets[..index + 1];
      }
      assert buckets[..capacity] == buckets[..];
      FlattenLookup(buckets[..], hash);
    }

    /** Every bucket becomes an empty list and size becomes 0; the capacity
        stays, so every bucket counts as empty and no key is found. */
    method Clear()
      requires Valid()
      modifies buckets, this`size
      ensures Valid() && size == 0
      ensures forall i :: 0 <= i < capacity ==> buckets[i] == []
      ensures forall k :: Lookup(k) == None
      ensures |EmptyBelow(buckets[..], capacity)| == capacity
    {
      for index := 0 to capacity
        invariant forall i :: 0 <= i < index ==> buckets[i] == []
      {
        buckets[index] := [];
      }
      size := 0;
      AllEmpty(buckets[..], hash);
      AllEmptyCount(buckets[..], capacity);
    }
  }

  /** One step of find_mode's counting: the token's count is looked up,
      absent meaning 0, and put back one higher. */
  method CountToken(counts: HashMap<nat>, ghost s: seq<string>, token: string) returns (count: nat)
    requires counts.Valid() && forall k :: counts.Lookup(k) == Tally(s, k)
    modifies counts, counts.buckets
    ensures counts.Valid() && (counts.buckets == old(counts.buckets) || fresh(counts.buckets))
    ensures count == Count(s, token)
    ensures forall k :: counts.Lookup(k) == Tally(s + [token], k)
  {
    var current := counts.Get(token);
    count := if current.None? then 0 else current.value;
    TallyStep(s, token);
    counts.Put(token, count + 1);
  }

  /** One iteration of find_mode's loop: the token is counted, and the
      mode list restarts when its count passes the maximum and grows when
      it equals it. */
  method ModeStep(counts: HashMap<nat>, ghost s: seq<string>, token: string, mode: seq<string>, maxFreq: nat)
    returns (mode': seq<string>, maxFreq': nat)
    requires counts.Valid() && forall k :: counts.Lookup(k) == Tally(s, k)
    requires mode == Modes(s) && maxFreq == MaxFreq(s)
    modifies counts, counts.buckets
    ensures counts.Valid() && (counts.buckets == old(counts.buckets) || fresh(counts.buckets))
    ensures forall k :: counts.Lookup(k) == Tally(s + [token], k)
    ensures mode' == Modes(s + [token]) && maxFreq' == MaxFreq(s + [token])
  {
    var count := CountToken(counts, s, token);
    AppendStep(s, token, mode, maxFreq, count);
    mode', maxFreq' := mode, maxFreq;
    if count + 1 > maxFreq {
      maxFreq' := count + 1;
      mode' := [token];
    } else if count + 1 == maxFreq {
      mode' := mode + [token];
    }
  }

  /** The mode of a token sequence, counted in a separate-chaining map of
      the default capacity. The result is the largest count and the tokens
      having it, in the order they reached it. */
  method FindMode(da: seq<string>, hash: string -> nat) returns (mode: seq<string>, maxFreq: nat)
    ensures mode == Modes(da) && maxFreq == MaxFreq(da)
    ensures forall x :: Count(da, x) <= maxFreq
    ensures forall x :: x in mode <==> maxFreq > 0 && Count(da, x) == maxFreq
    ensures mode == [] <==> da == []
  {
    var counts := new HashMap<nat>(11, hash);
    mode := [];
    maxFreq := 0;
    for index := 0 to |da|
      invariant counts.Valid() && fresh(counts) && fresh(counts.buckets)
      invariant forall k :: counts.Lookup(k) == Tally(da[..index], k)
      invariant mode == Modes(da[..index]) && maxFreq == MaxFreq(da[..index])
    {
      assert da[..index + 1] == da[..index] + [da[index]];
      mode, maxFreq := ModeStep(counts, da[..index], da[index], mode, maxFreq);
    }
    assert da[..|da|] == da;
    MaxFreqIsMax(da);
    ModesExactly(da);
  }
}
