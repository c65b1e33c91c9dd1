/** The slot array of the open-addressing hash map as a value: quadratic
    probe sequences, the searches that put, get, contains_key and remove
    perform on them, and the facts that make the table sound. */
module Probing {
  import opened Primes
  import opened Options
  import opened Pairs

  /** A slot is empty (never used since the last rebuild) or holds an entry
      that may be marked as a tombstone. */
  datatype Slot<V> = Empty | Entry(key: string, value: V, tombstone: bool)

  predicate Live<V>(x: Slot<V>) {
    x.Entry? && !x.tombstone
  }

  /** The slot visited at step j of the probe sequence that starts at home. */
  function Probe(home: nat, j: nat, cap: nat): (r: nat)
    requires cap > 0
    ensures r < cap
  {
    (home + j * j) % cap
  }

  /** The probe sequence starts at its home slot. */
  lemma ProbeZero(home: nat, cap: nat)
    requires home < cap
    ensures Probe(home, 0, cap) == home
  {
    DivModUnique(home, cap, 0, home);
  }

  /** Which slots end a search: get and contains_key stop at a live slot with
      the key, remove at any slot with the key, put at any slot with the key
      or any tombstone; all of them stop at an empty slot. */
  datatype Rule = UntilLive | UntilKey | UntilFree

  predicate Stops<V>(x: Slot<V>, key: string, rule: Rule) {
    match x
    case Empty => true
    case Entry(k, _, dead) =>
      match rule
      case UntilLive => k == key && !dead
      case UntilKey => k == key
      case UntilFree => k == key || dead
  }

  /** The first step, from j on and below |s|, at which the probe sequence
      reaches a slot that stops the search, if any. The sequence repeats with
      period |s| (ProbePeriodic), so None means the search never stops. */
  function FirstStop<V>(s: seq<Slot<V>>, home: nat, key: string, rule: Rule, j: nat): (r: Option<nat>)
    requires |s| > 0
    ensures r.Some? ==> j <= r.value < |s| && Stops(s[Probe(home, r.value, |s|)], key, rule)
    ensures forall t :: j <= t < |s| && (r.None? || t < r.value) ==> !Stops(s[Probe(home, t, |s|)], key, rule)
    decreases |s| - j
  {
    if j >= |s| then None
    else if Stops(s[Probe(home, j, |s|)], key, rule) then Some(j)
    else FirstStop(s, home, key, rule, j + 1)
  }

  /** What a lookup finds: the value of a live slot with the key, an empty
      slot (the key is absent), or neither, in which case the source's loop
      runs forever. */
  datatype Search<V> = Hit(value: V) | Miss | Unending

  function Find<V>(s: seq<Slot<V>>, home: nat, key: string): Search<V>
    requires |s| > 0
  {
    match FirstStop(s, home, key, UntilLive, 0)
    case None => Unending
    case Some(j) =>
      var x := s[Probe(home, j, |s|)];
      if x.Entry? then Hit(x.value) else Miss
  }

  /** A lookup that passes steps 0..j-1 without stopping and stops at step j
      hits there or misses there. */
  lemma FindStopsAt<V>(s: seq<Slot<V>>, home: nat, key: string, j: nat)
    requires j < |s| && Stops(s[Probe(home, j, |s|)], key, UntilLive)
    requires forall t :: 0 <= t < j ==> !Stops(s[Probe(home, t, |s|)], key, UntilLive)
    ensures FirstStop(s, home, key, UntilLive, 0) == Some(j)
    ensures Find(s, home, key) == if s[Probe(home, j, |s|)].Entry? then Hit(s[Probe(home, j, |s|)].value) else Miss
  {
  }

  /** The slot put writes to: the first empty slot, slot with the key, or
      tombstone on the probe sequence. */
  function PutIndex<V>(s: seq<Slot<V>>, home: nat, key: string): (r: nat)
    requires |s| > 0 && FirstStop(s, home, key, UntilFree, 0).Some?
    ensures r < |s|
  {
    Probe(home, FirstStop(s, home, key, UntilFree, 0).value, |s|)
  }

  function PutSlots<V>(s: seq<Slot<V>>, home: nat, key: string, value: V): (r: seq<Slot<V>>)
    requires |s| > 0 && FirstStop(s, home, key, UntilFree, 0).Some?
  {
    s[PutIndex(s, home, key) := Entry(key, value, false)]
  }

  ghost function LiveSet<V>(s: seq<Slot<V>>): set<int> {
    set i | 0 <= i < |s| && Live(s[i])
  }

  ghost function LiveKeys<V>(s: seq<Slot<V>>): set<string> {
    set i | 0 <= i < |s| && Live(s[i]) :: s[i].key
  }

  ghost function EmptySet<V>(s: seq<Slot<V>>): set<int> {
    set i | 0 <= i < |s| && s[i].Empty?
  }

  predicate NoTombstones<V>(s: seq<Slot<V>>) {
    forall i :: 0 <= i < |s| ==> !(s[i].Entry? && s[i].tombstone)
  }

  /** No key is held by two live slots. */
  ghost predicate UniqueKeys<V>(s: seq<Slot<V>>) {
    forall i, i' {:trigger Live(s[i]), Live(s[i'])} :: 0 <= i < |s| && 0 <= i' < |s| && Live(s[i]) && Live(s[i']) && s[i].key == s[i'].key ==> i == i'
  }

  /** The entry in slot i lies on its key's probe sequence, and every slot
      probed before it is occupied, so a search for the key cannot stop
      at an empty slot before reaching it. */
  ghost predicate Reachable<V>(s: seq<Slot<V>>, hash: string -> nat, i: int) {
    && 0 <= i < |s| && s[i].Entry?
    && exists j :: 0 <= j < |s| && Probe(hash(s[i].key) % |s|, j, |s|) == i
         && forall t :: 0 <= t < j ==> s[Probe(hash(s[i].key) % |s|, t, |s|)].Entry?
  }

  ghost predicate AllReachable<V>(s: seq<Slot<V>>, hash: string -> nat) {
    forall i {:trigger Reachable(s, hash, i)} :: 0 <= i < |s| && s[i].Entry? ==> Reachable(s, hash, i)
  }

  /** The traversal of the iterator: every non-empty slot, tombstones
      included, in index order. */
  function Occupied<V>(s: seq<Slot<V>>): (r: seq<Slot<V>>)
    ensures |r| <= |s|
    ensures forall i :: 0 <= i < |r| ==> r[i].Entry?
  {
    if s == [] then []
    else Occupied(s[..|s| - 1]) + (if s[|s| - 1].Entry? then [s[|s| - 1]] else [])
  }

  /** The (key, value) pairs of the live slots in index order. */
  function LivePairs<V>(s: seq<Slot<V>>): seq<(string, V)> {
    if s == [] then []
    else LivePairs(s[..|s| - 1]) + (if Live(s[|s| - 1]) then [(s[|s| - 1].key, s[|s| - 1].value)] else [])
  }

  // ---------------------------------------------------------------------
  // The probe sequence

  /** The probe sequence repeats with period cap: probing cap steps covers
      every slot the search would ever visit. */
  lemma ProbePeriodic(home: nat, j: nat, cap: nat)
    requires cap > 0
    ensures Probe(home, j + cap, cap) == Probe(home, j, cap)
  {
    var a := home + j * j;
    assert home + (j + cap) * (j + cap) == a + cap * (2 * j + cap);
    AddMultipleMod(a, cap, 2 * j + cap);
  }

  /** Step j probes the same slot as step j mod cap. */
  lemma {:induction false} ProbeMod(home: nat, j: nat, cap: nat)
    requires cap > 0
    ensures Probe(home, j, cap) == Probe(home, j % cap, cap)
  {
    if j >= cap {
      var k: nat := j - cap;
      ProbeMod(home, k, cap);
      ProbePeriodic(home, k, cap);
      AddMultipleMod(k, cap, 1);
      assert j % cap == k % cap;
    } else {
      DivModUnique(j, cap, 0, j);
    }
  }

  /** A scan finds no stop within its first |s| steps exactly when no step
      at all, however late, reaches a slot that stops it: None from
      FirstStop is a loop that never ends. */
  lemma NoStopEver<V>(s: seq<Slot<V>>, home: nat, key: string, rule: Rule)
    requires |s| > 0
    ensures FirstStop(s, home, key, rule, 0).None? <==>
      forall j: nat :: !Stops(s[Probe(home, j, |s|)], key, rule)
  {
    if FirstStop(s, home, key, rule, 0).None? {
      forall j: nat
        ensures !Stops(s[Probe(home, j, |s|)], key, rule)
      {
        ProbeMod(home, j, |s|);
      }
    }
  }

  /** Modulo a prime p, steps i < j with i + j < p probe different slots. */
  lemma DistinctProbes(home: nat, i: nat, j: nat, p: nat)
    requires IsPrime(p) && i < j && i + j < p
    ensures Probe(home, i, p) != Probe(home, j, p)
  {
    if Probe(home, i, p) == Probe(home, j, p) {
      SameRemainder(home + i * i, home + j * j, p);
      assert (home + j * j) - (home + i * i) == (j - i) * (j + i);
      NoZeroDivisors(p, j - i, j + i);
    }
  }

  /** The first m probes visit m different slots while 2m <= p + 1. */
  lemma {:induction false} ProbeImageCard(home: nat, m: nat, p: nat)
    requires IsPrime(p) && 2 * m <= p + 1
    ensures |set t | 0 <= t < m :: Probe(home, t, p)| == m
  {
    if m > 0 {
      ProbeImageCard(home, m - 1, p);
      var a := set t | 0 <= t < m - 1 :: Probe(home, t, p);
      assert (set t | 0 <= t < m :: Probe(home, t, p)) == a + {Probe(home, m - 1, p)};
      forall t | 0 <= t < m - 1
        ensures Probe(home, t, p) != Probe(home, m - 1, p)
      {
        DistinctProbes(home, t, m - 1, p);
      }
    }
  }

  /** With fewer than half of a prime number of slots live, put's search
      stops within its first |LiveSet| + 1 probes: its loop terminates. */
  lemma FreeSlotEarly<V>(s: seq<Slot<V>>, home: nat, key: string)
    requires IsPrime(|s|) && 2 * |LiveSet(s)| < |s|
    ensures FirstStop(s, home, key, UntilFree, 0).Some?
    ensures FirstStop(s, home, key, UntilFree, 0).value <= |LiveSet(s)|
  {
    var n := |LiveSet(s)|;
    var r := FirstStop(s, home, key, UntilFree, 0);
    if r.None? || r.value > n {
      var probed := set t | 0 <= t < n + 1 :: Probe(home, t, |s|);
      forall x | x in probed
        ensures x in LiveSet(s)
      {
        var t :| 0 <= t < n + 1 && x == Probe(home, t, |s|);
        assert !Stops(s[x], key, UntilFree);
      }
      ProbeImageCard(home, n + 1, |s|);
      SubsetCard(probed, LiveSet(s));
    }
  }

  /** The slots in use: live entries and tombstones. */
  ghost function UsedSet<V>(s: seq<Slot<V>>): set<int> {
    set i | 0 <= i < |s| && s[i].Entry?
  }

  /** While fewer than half of a prime number of slots are in use, every
      scan (get, contains_key, remove or put) reaches an empty slot or
      stops earlier, within its first |UsedSet| + 1 probes. */
  lemma ScanEndsBelowHalf<V>(s: seq<Slot<V>>, home: nat, key: string, rule: Rule)
    requires IsPrime(|s|) && 2 * |UsedSet(s)| < |s|
    ensures FirstStop(s, home, key, rule, 0).Some?
    ensures FirstStop(s, home, key, rule, 0).value <= |UsedSet(s)|
    ensures Find(s, home, key) != Unending
  {
    ScanEndsBelowHalfRule(s, home, key, UntilLive);
    ScanEndsBelowHalfRule(s, home, key, rule);
  }

  lemma ScanEndsBelowHalfRule<V>(s: seq<Slot<V>>, home: nat, key: string, rule: Rule)
    requires IsPrime(|s|) && 2 * |UsedSet(s)| < |s|
    ensures FirstStop(s, home, key, rule, 0).Some?
    ensures FirstStop(s, home, key, rule, 0).value <= |UsedSet(s)|
  {
    var n := |UsedSet(s)|;
    var r := FirstStop(s, home, key, rule, 0);
    if r.None? || r.value > n {
      var probed := set t | 0 <= t < n + 1 :: Probe(home, t, |s|);
      forall x | x in probed
        ensures x in UsedSet(s)
      {
        var t :| 0 <= t < n + 1 && x == Probe(home, t, |s|);
        assert !Stops(s[x], key, rule);
      }
      ProbeImageCard(home, n + 1, |s|);
      SubsetCard(probed, UsedSet(s));
    }
  }

  /** Three puts into five empty slots, with keys whose homes are 0, 1 and
      4, are each made below half load, yet a lookup from home 0 of a
      fourth key never ends: the squares modulo 5 are only 0, 1 and 4, so
      the probes never reach the empty slots 2 and 3. */
  lemma UnendingExample()
    ensures
      var e: seq<Slot<int>> := [Empty, Empty, Empty, Empty, Empty];
      var s1 := PutSlots(e, 0, "a", 1);
      var s2 := PutSlots(s1, 1, "b", 2);
      var s3 := PutSlots(s2, 4, "c", 3);
      && s3 == [Entry("a", 1, false), Entry("b", 2, false), Empty, Empty, Entry("c", 3, false)]
      && Find(s3, 0, "d") == Unending
  {
    var e: seq<Slot<int>> := [Empty, Empty, Empty, Empty, Empty];
    assert FirstStop(e, 0, "a", UntilFree, 0) == Some(0);
    var s1 := PutSlots(e, 0, "a", 1);
    assert Probe(1, 0, 5) == 1;
    assert FirstStop(s1, 1, "b", UntilFree, 0) == Some(0);
    var s2 := PutSlots(s1, 1, "b", 2);
    assert Probe(4, 0, 5) == 4;
    assert FirstStop(s2, 4, "c", UntilFree, 0) == Some(0);
    var s3 := PutSlots(s2, 4, "c", 3);
    assert s3 == [Entry("a", 1, false), Entry("b", 2, false), Empty, Empty, Entry("c", 3, false)];
    assert Probe(0, 1, 5) == 1 && Probe(0, 2, 5) == 4 && Probe(0, 3, 5) == 4 && Probe(0, 4, 5) == 1;
    assert FirstStop(s3, 0, "d", UntilLive, 0) == None;
  }

  /** Duplicates arise only through a tombstone and outlive it. With every
      home 0 in five slots: put x, put k = 1 (slot 1), remove x, put k = 2
      (takes the tombstone in slot 0). The array then has no tombstone but
      holds k twice. */
  lemma DuplicateAfterTombstone()
    ensures
      var e: seq<Slot<int>> := [Empty, Empty, Empty, Empty, Empty];
      var s := PutSlots(RemoveSlots(PutSlots(PutSlots(e, 0, "x", 0), 0, "k", 1), 0, "x"), 0, "k", 2);
      && s == [Entry("k", 2, false), Entry("k", 1, false), Empty, Empty, Empty]
      && NoTombstones(s) && !UniqueKeys(s)
  {
    var e: seq<Slot<int>> := [Empty, Empty, Empty, Empty, Empty];
    assert Stops(e[Probe(0, 0, 5)], "x", UntilFree);
    assert FirstStop(e, 0, "x", UntilFree, 0) == Some(0);
    var s1 := PutSlots(e, 0, "x", 0);
    assert s1 == [Entry("x", 0, false), Empty, Empty, Empty, Empty];
    assert !Stops(s1[Probe(0, 0, 5)], "k", UntilFree);
    assert Stops(s1[Probe(0, 1, 5)], "k", UntilFree);
    assert FirstStop(s1, 0, "k", UntilFree, 0) == Some(1);
    var s2 := PutSlots(s1, 0, "k", 1);
    assert s2 == [Entry("x", 0, false), Entry("k", 1, false), Empty, Empty, Empty];
    assert Stops(s2[Probe(0, 0, 5)], "x", UntilKey);
    assert FirstStop(s2, 0, "x", UntilKey, 0) == Some(0);
    var s3 := RemoveSlots(s2, 0, "x");
    assert s3 == [Entry("x", 0, true), Entry("k", 1, false), Empty, Empty, Empty];
    assert Stops(s3[Probe(0, 0, 5)], "k", UntilFree);
    assert FirstStop(s3, 0, "k", UntilFree, 0) == Some(0);
    var s4 := PutSlots(s3, 0, "k", 2);
    assert s4 == [Entry("k", 2, false), Entry("k", 1, false), Empty, Empty, Empty];
    assert Live(s4[0]) && Live(s4[1]) && s4[0].key == s4[1].key;
  }

  /** Continuing DuplicateAfterTombstone: removing k marks slot 0, after
      which get finds the older value 1 and every further remove of k
      changes nothing, so k can no longer be removed. */
  lemma StaleAfterRemove()
    ensures
      var s: seq<Slot<int>> := [Entry("k", 2, false), Entry("k", 1, false), Empty, Empty, Empty];
      var s' := RemoveSlots(s, 0, "k");
      && s' == [Entry("k", 2, true), Entry("k", 1, false), Empty, Empty, Empty]
      && Find(s', 0, "k") == Hit(1)
      && RemoveSlots(s', 0, "k") == s'
  {
    var s: seq<Slot<int>> := [Entry("k", 2, false), Entry("k", 1, false), Empty, Empty, Empty];
    assert Stops(s[Probe(0, 0, 5)], "k", UntilKey);
    assert FirstStop(s, 0, "k", UntilKey, 0) == Some(0);
    var s' := RemoveSlots(s, 0, "k");
    assert s' == [Entry("k", 2, true), Entry("k", 1, false), Empty, Empty, Empty];
    assert !Stops(s'[Probe(0, 0, 5)], "k", UntilLive);
    assert Stops(s'[Probe(0, 1, 5)], "k", UntilLive);
    assert FirstStop(s', 0, "k", UntilLive, 0) == Some(1);
    assert FirstStop(s', 0, "k", UntilKey, 0) == Some(0);
  }

  lemma SubsetCard(a: set<int>, b: set<int>)
    requires a <= b
    ensures |a| <= |b|
  {
    assert b == a + (b - a);
    assert a * (b - a) == {};
  }

  // ---------------------------------------------------------------------
  // Lookups

  /** When every entry is reachable, a lookup hits exactly the keys that
      some live slot holds. */
  lemma FoundIffLive<V>(s: seq<Slot<V>>, hash: string -> nat, key: string)
    requires |s| > 0 && AllReachable(s, hash)
    ensures Find(s, hash(key) % |s|, key).Hit? <==> key in LiveKeys(s)
  {
    var home := hash(key) % |s|;
    var r := FirstStop(s, home, key, UntilLive, 0);
    if key in LiveKeys(s) {
      var i :| 0 <= i < |s| && Live(s[i]) && s[i].key == key;
      assert Reachable(s, hash, i);
      var j :| 0 <= j < |s| && Probe(home, j, |s|) == i
        && forall t :: 0 <= t < j ==> s[Probe(home, t, |s|)].Entry?;
      assert Stops(s[Probe(home, j, |s|)], key, UntilLive);
      assert r.Some? && r.value <= j;
      assert s[Probe(home, r.value, |s|)].Entry?;
    }
  }

  // ---------------------------------------------------------------------
  // Put

  /** After put, a lookup of the key finds the value just written, even
      when the slot taken is a tombstone in front of an older live slot
      with the same key. */
  lemma PutFindsKey<V>(s: seq<Slot<V>>, home: nat, key: string, value: V)
    requires |s| > 0 && FirstStop(s, home, key, UntilFree, 0).Some?
    ensures Find(PutSlots(s, home, key, value), home, key) == Hit(value)
  {
    var s' := PutSlots(s, home, key, value);
    var jp := FirstStop(s, home, key, UntilFree, 0).value;
    var idx := PutIndex(s, home, key);
    forall t | 0 <= t < jp
      ensures !Stops(s'[Probe(home, t, |s|)], key, UntilLive)
    {
      assert !Stops(s[Probe(home, t, |s|)], key, UntilFree);
    }
    assert Stops(s'[Probe(home, jp, |s|)], key, UntilLive);
    var r := FirstStop(s', home, key, UntilLive, 0);
    assert r.Some? && r.value == jp;
  }

  /** Put does not change what a lookup of another, present key finds. */
  lemma PutKeepsHit<V>(s: seq<Slot<V>>, home: nat, key: string, value: V, home': nat, k: string)
    requires |s| > 0 && FirstStop(s, home, key, UntilFree, 0).Some?
    requires k != key && Find(s, home', k).Hit?
    ensures Find(PutSlots(s, home, key, value), home', k) == Find(s, home', k)
  {
    var s' := PutSlots(s, home, key, value);
    var idx := PutIndex(s, home, key);
    var jk := FirstStop(s, home', k, UntilLive, 0).value;
    assert Stops(s[idx], key, UntilFree);
    forall t | 0 <= t <= jk
      ensures Stops(s'[Probe(home', t, |s|)], k, UntilLive) == Stops(s[Probe(home', t, |s|)], k, UntilLive)
      ensures s'[Probe(home', t, |s|)] == s[Probe(home', t, |s|)] || t < jk
    {
      assert Probe(home', t, |s|) != idx || s'[idx].key != k;
    }
    var r := FirstStop(s', home', k, UntilLive, 0);
    assert r.Some? && r.value == jk;
  }

  /** Put adds its key to the live keys and removes none. */
  lemma PutLiveKeys<V>(s: seq<Slot<V>>, home: nat, key: string, value: V)
    requires |s| > 0 && FirstStop(s, home, key, UntilFree, 0).Some?
    ensures LiveKeys(PutSlots(s, home, key, value)) == LiveKeys(s) + {key}
  {
    var s' := PutSlots(s, home, key, value);
    var idx := PutIndex(s, home, key);
    assert Stops(s[idx], key, UntilFree);
    forall k | k in LiveKeys(s) + {key}
      ensures k in LiveKeys(s')
    {
      if k != key {
        var i :| 0 <= i < |s| && Live(s[i]) && s[i].key == k;
        assert i != idx;
        assert s'[i] == s[i];
      } else {
        assert Live(s'[idx]) && s'[idx].key == key;
      }
    }
    forall k | k in LiveKeys(s')
      ensures k in LiveKeys(s) + {key}
    {
      var i :| 0 <= i < |s'| && Live(s'[i]) && s'[i].key == k;
      if i != idx {
        assert Live(s[i]) && s[i].key == k;
      }
    }
  }

  /** Put makes its target slot live and changes no other slot's liveness,
      so the live count grows by one unless the target was already live. */
  lemma PutLiveSet<V>(s: seq<Slot<V>>, home: nat, key: string, value: V)
    requires |s| > 0 && FirstStop(s, home, key, UntilFree, 0).Some?
    ensures LiveSet(PutSlots(s, home, key, value)) == LiveSet(s) + {PutIndex(s, home, key)}
    ensures |LiveSet(PutSlots(s, home, key, value))|
         == |LiveSet(s)| + (if Live(s[PutIndex(s, home, key)]) then 0 else 1)
    ensures Live(s[PutIndex(s, home, key)]) ==> s[PutIndex(s, home, key)].key == key
  {
    var idx := PutIndex(s, home, key);
    assert Stops(s[idx], key, UntilFree);
    assert LiveSet(PutSlots(s, home, key, value)) == LiveSet(s) + {idx};
  }

  /** Put keeps every entry reachable: the new entry sits at the end of a
      run of occupied slots on its own probe sequence, and no slot is
      emptied. */
  lemma PutReachable<V>(s: seq<Slot<V>>, hash: string -> nat, key: string, value: V)
    requires |s| > 0 && FirstStop(s, hash(key) % |s|, key, UntilFree, 0).Some?
    requires AllReachable(s, hash)
    ensures AllReachable(PutSlots(s, hash(key) % |s|, key, value), hash)
  {
    var home := hash(key) % |s|;
    var s' := PutSlots(s, home, key, value);
    var jp := FirstStop(s, home, key, UntilFree, 0).value;
    var idx := PutIndex(s, home, key);
    forall i | 0 <= i < |s'| && s'[i].Entry?
      ensures Reachable(s', hash, i)
    {
      if i == idx {
        forall t | 0 <= t < jp
          ensures s'[Probe(home, t, |s|)].Entry?
        {
          assert !Stops(s[Probe(home, t, |s|)], key, UntilFree);
        }
        assert Probe(home, jp, |s|) == i;
      } else {
        assert s'[i] == s[i];
        assert Reachable(s, hash, i);
        var h := hash(s[i].key) % |s|;
        var j :| 0 <= j < |s| && Probe(h, j, |s|) == i
          && forall t :: 0 <= t < j ==> s[Probe(h, t, |s|)].Entry?;
        forall t | 0 <= t < j
          ensures s'[Probe(h, t, |s|)].Entry?
        {
          assert s[Probe(h, t, |s|)].Entry?;
        }
        assert Probe(h, j, |s|) == i;
      }
    }
  }

  /** In a table without tombstones and with unique live keys (as after a
      rebuild), put overwrites the key's slot or fills an empty slot, so
      both properties survive. */
  lemma PutKeepsUnique<V>(s: seq<Slot<V>>, hash: string -> nat, key: string, value: V)
    requires |s| > 0 && FirstStop(s, hash(key) % |s|, key, UntilFree, 0).Some?
    requires AllReachable(s, hash) && NoTombstones(s) && UniqueKeys(s)
    ensures NoTombstones(PutSlots(s, hash(key) % |s|, key, value))
    ensures UniqueKeys(PutSlots(s, hash(key) % |s|, key, value))
    ensures s[PutIndex(s, hash(key) % |s|, key)].Empty? <==> key !in LiveKeys(s)
  {
    var home := hash(key) % |s|;
    var s' := PutSlots(s, home, key, value);
    var idx := PutIndex(s, home, key);
    var jp := FirstStop(s, home, key, UntilFree, 0).value;
    assert Stops(s[idx], key, UntilFree);
    if key in LiveKeys(s) {
      var i :| 0 <= i < |s| && Live(s[i]) && s[i].key == key;
      assert Reachable(s, hash, i);
      var j :| 0 <= j < |s| && Probe(home, j, |s|) == i
        && forall t :: 0 <= t < j ==> s[Probe(home, t, |s|)].Entry?;
      assert Stops(s[Probe(home, j, |s|)], key, UntilFree);
      assert jp <= j;
      assert s[idx].Entry?;
    } else {
      assert !Live(s[idx]);
    }
    assert key in LiveKeys(s) ==> Live(s[idx]) && s[idx].key == key;
    forall i, i' | 0 <= i < |s'| && 0 <= i' < |s'| && Live(s'[i]) && Live(s'[i']) && s'[i].key == s'[i'].key
      ensures i == i'
    {
      assert i != idx ==> Live(s[i]) && s[i] == s'[i] && s[i].key in LiveKeys(s);
      assert i' != idx ==> Live(s[i']) && s[i'] == s'[i'] && s[i'].key in LiveKeys(s);
    }
  }

  // ---------------------------------------------------------------------
  // Remove

  /** Remove stops at the first slot that is empty or holds the key; a live
      slot found there becomes a tombstone, anything else is left alone. */
  function RemoveSlots<V>(s: seq<Slot<V>>, home: nat, key: string): seq<Slot<V>>
    requires |s| > 0
  {
    match FirstStop(s, home, key, UntilKey, 0)
    case None => s
    case Some(j) =>
      var x := s[Probe(home, j, |s|)];
      if Live(x) then s[Probe(home, j, |s|) := Entry(x.key, x.value, true)] else s
  }

  /** A remove that passes steps 0..j-1 without stopping and stops at step j
      tombstones that slot if it is live, and otherwise changes nothing. */
  lemma RemoveStopsAt<V>(s: seq<Slot<V>>, home: nat, key: string, j: nat)
    requires j < |s| && Stops(s[Probe(home, j, |s|)], key, UntilKey)
    requires forall t :: 0 <= t < j ==> !Stops(s[Probe(home, t, |s|)], key, UntilKey)
    ensures FirstStop(s, home, key, UntilKey, 0) == Some(j)
    ensures var x := s[Probe(home, j, |s|)];
      RemoveSlots(s, home, key) == if Live(x) then s[Probe(home, j, |s|) := Entry(x.key, x.value, true)] else s
    ensures Live(s[Probe(home, j, |s|)]) ==> Probe(home, j, |s|) in LiveSet(s)
  {
  }

  /** Two arrays of the same length whose slots stop a scan for k at the
      same indices give the same first stop. */
  lemma {:induction false} SameFirstStop<V>(s: seq<Slot<V>>, t: seq<Slot<V>>, home: nat, k: string, rule: Rule, j: nat)
    requires |s| == |t| > 0
    requires forall i :: 0 <= i < |s| ==> (Stops(s[i], k, rule) <==> Stops(t[i], k, rule))
    ensures FirstStop(s, home, k, rule, j) == FirstStop(t, home, k, rule, j)
    decreases |s| - j
  {
    if j < |s| {
      SameFirstStop(s, t, home, k, rule, j + 1);
    }
  }

  /** Remove leaves every other key's lookup as it was, on any table:
      the only slot it changes holds key, which stops no scan for k. */
  lemma RemoveKeepsFind<V>(s: seq<Slot<V>>, home: nat, key: string, home': nat, k: string)
    requires |s| > 0 && k != key
    ensures Find(RemoveSlots(s, home, key), home', k) == Find(s, home', k)
  {
    var t := RemoveSlots(s, home, key);
    assert |t| == |s|;
    forall i | 0 <= i < |s|
      ensures Stops(s[i], k, UntilLive) <==> Stops(t[i], k, UntilLive)
      ensures Stops(s[i], k, UntilLive) ==> t[i] == s[i]
    {
    }
    SameFirstStop(s, t, home', k, UntilLive, 0);
  }

  /** Remove only turns a live slot with the key into a tombstone: it empties
      no slot, keeps every entry reachable and takes at most one slot out of
      the live set. */
  lemma RemoveEffects<V>(s: seq<Slot<V>>, hash: string -> nat, key: string)
    requires |s| > 0
    ensures |RemoveSlots(s, hash(key) % |s|, key)| == |s|
    ensures EmptySet(RemoveSlots(s, hash(key) % |s|, key)) == EmptySet(s)
    ensures LiveKeys(RemoveSlots(s, hash(key) % |s|, key)) <= LiveKeys(s)
    ensures AllReachable(s, hash) ==> AllReachable(RemoveSlots(s, hash(key) % |s|, key), hash)
    ensures NoTombstones(RemoveSlots(s, hash(key) % |s|, key)) ==> NoTombstones(s)
    ensures var r := FirstStop(s, hash(key) % |s|, key, UntilKey, 0);
      if r.Some? && Live(s[Probe(hash(key) % |s|, r.value, |s|)])
      then |LiveSet(RemoveSlots(s, hash(key) % |s|, key))| == |LiveSet(s)| - 1
      else RemoveSlots(s, hash(key) % |s|, key) == s
  {
    var home := hash(key) % |s|;
    var s' := RemoveSlots(s, home, key);
    var r := FirstStop(s, home, key, UntilKey, 0);
    if r.Some? && Live(s[Probe(home, r.value, |s|)]) {
      var idx := Probe(home, r.value, |s|);
      assert s' == s[idx := Entry(s[idx].key, s[idx].value, true)];
      assert EmptySet(s') == EmptySet(s);
      assert LiveSet(s') == LiveSet(s) - {idx};
      forall k | k in LiveKeys(s')
        ensures k in LiveKeys(s)
      {
        var i :| 0 <= i < |s'| && Live(s'[i]) && s'[i].key == k;
        assert Live(s[i]);
      }
      if AllReachable(s, hash) {
        forall i | 0 <= i < |s'| && s'[i].Entry?
          ensures Reachable(s', hash, i)
        {
          assert Reachable(s, hash, i);
          var h := hash(s[i].key) % |s|;
          var j :| 0 <= j < |s| && Probe(h, j, |s|) == i
            && forall t :: 0 <= t < j ==> s[Probe(h, t, |s|)].Entry?;
          forall t | 0 <= t < j
            ensures s'[Probe(h, t, |s|)].Entry?
          {
            assert s[Probe(h, t, |s|)].Entry?;
          }
          assert s'[i].key == s[i].key;
        }
      }
    }
  }

  // ---------------------------------------------------------------------
  // Counting

  ghost function LiveBelow<V>(s: seq<Slot<V>>, n: int): set<int> {
    set i | 0 <= i < n && i < |s| && Live(s[i])
  }

  ghost function KeysBelow<V>(s: seq<Slot<V>>, n: int): set<string> {
    set i | 0 <= i < n && i < |s| && Live(s[i]) :: s[i].key
  }

  lemma {:induction false} KeysCountBelow<V>(s: seq<Slot<V>>, n: nat)
    requires n <= |s|
    ensures |KeysBelow(s, n)| <= |LiveBelow(s, n)|
    ensures UniqueKeys(s) ==> |LiveBelow(s, n)| == |KeysBelow(s, n)|
  {
    if n > 0 {
      KeysCountBelow(s, n - 1);
      if Live(s[n - 1]) {
        assert LiveBelow(s, n) == LiveBelow(s, n - 1) + {n - 1};
        assert KeysBelow(s, n) == KeysBelow(s, n - 1) + {s[n - 1].key};
        assert UniqueKeys(s) ==> s[n - 1].key !in KeysBelow(s, n - 1);
      } else {
        assert LiveBelow(s, n) == LiveBelow(s, n - 1);
        assert KeysBelow(s, n) == KeysBelow(s, n - 1);
      }
    }
  }

  /** There are at most as many distinct live keys as live slots, and
      exactly as many when live keys are unique. */
  lemma KeysCount<V>(s: seq<Slot<V>>)
    ensures |LiveKeys(s)| <= |LiveSet(s)|
    ensures UniqueKeys(s) ==> |LiveSet(s)| == |LiveKeys(s)|
  {
    KeysCountBelow(s, |s|);
    assert LiveBelow(s, |s|) == LiveSet(s);
    assert KeysBelow(s, |s|) == LiveKeys(s);
  }

  /** get_keys_and_values yields one pair per live slot. */
  lemma {:induction false} LivePairsCount<V>(s: seq<Slot<V>>)
    ensures |LivePairs(s)| == |LiveSet(s)|
  {
    if s != [] {
      var init := s[..|s| - 1];
      LivePairsCount(init);
      if Live(s[|s| - 1]) {
        assert LiveSet(s) == LiveSet(init) + {|s| - 1};
      } else {
        assert LiveSet(s) == LiveSet(init);
      }
    }
  }

  /** The empty slots among the first n. */
  ghost function EmptyBelow<V>(s: seq<Slot<V>>, n: int): set<int> {
    set i | 0 <= i < n && i < |s| && s[i].Empty?
  }

  /** Counting one more slot adds one empty slot exactly when that slot is
      empty. */
  lemma EmptyBelowStep<V>(s: seq<Slot<V>>, i: int)
    requires 0 <= i < |s|
    ensures |EmptyBelow(s, i + 1)| == |EmptyBelow(s, i)| + if s[i].Empty? then 1 else 0
  {
    if s[i].Empty? {
      assert EmptyBelow(s, i + 1) == EmptyBelow(s, i) + {i};
    } else {
      assert EmptyBelow(s, i + 1) == EmptyBelow(s, i);
    }
  }

  /** The iterator yields every non-empty slot: together with the empty
      slots that is every slot. */
  lemma {:induction false} OccupiedCount<V>(s: seq<Slot<V>>)
    ensures |Occupied(s)| + |EmptySet(s)| == |s|
  {
    if s != [] {
      var init := s[..|s| - 1];
      OccupiedCount(init);
      if s[|s| - 1].Empty? {
        assert EmptySet(s) == EmptySet(init) + {|s| - 1};
      } else {
        assert EmptySet(s) == EmptySet(init);
      }
    }
  }

  /** Filtering the iterator's output for live entries gives the live pairs
      of the whole array. */
  lemma {:induction false} LivePairsOfOccupied<V>(s: seq<Slot<V>>)
    ensures LivePairs(Occupied(s)) == LivePairs(s)
  {
    if s != [] {
      var init := s[..|s| - 1];
      var last := s[|s| - 1];
      LivePairsOfOccupied(init);
      if last.Entry? {
        var o := Occupied(init) + [last];
        assert Occupied(s) == o;
        assert o[..|o| - 1] == Occupied(init);
        assert LivePairs(o) == LivePairs(Occupied(init)) + (if Live(last) then [(last.key, last.value)] else []);
      } else {
        assert Occupied(s) == Occupied(init);
      }
    }
  }

  /** Inserting the live pairs in order yields a map from exactly the live
      keys, each to the value of some live slot with that key. */
  lemma {:induction false} AssocOfLivePairs<V>(s: seq<Slot<V>>)
    ensures Assoc(LivePairs(s)).Keys == LiveKeys(s)
    ensures forall k :: k in Assoc(LivePairs(s)) ==>
      exists i :: 0 <= i < |s| && Live(s[i]) && s[i].key == k && s[i].value == Assoc(LivePairs(s))[k]
  {
    if s != [] {
      var init := s[..|s| - 1];
      var last := s[|s| - 1];
      AssocOfLivePairs(init);
      var ps := LivePairs(s);
      if Live(last) {
        assert ps == LivePairs(init) + [(last.key, last.value)];
        assert ps[..|ps| - 1] == LivePairs(init);
        assert Assoc(ps) == Assoc(LivePairs(init))[last.key := last.value];
        assert LiveKeys(s) == LiveKeys(init) + {last.key};
      } else {
        assert ps == LivePairs(init);
        assert LiveKeys(s) == LiveKeys(init);
      }
      forall k | k in Assoc(ps)
        ensures exists i :: 0 <= i < |s| && Live(s[i]) && s[i].key == k && s[i].value == Assoc(ps)[k]
      {
        if Live(last) && k == last.key {
          assert s[|s| - 1].value == Assoc(ps)[k];
        } else {
          var i :| 0 <= i < |init| && Live(init[i]) && init[i].key == k && init[i].value == Assoc(LivePairs(init))[k];
          assert s[i] == init[i];
        }
      }
    }
  }

  /** With unique live keys, a hit returns the value the snapshot map
      holds for the key. */
  lemma UniqueHitIsAssoc<V>(s: seq<Slot<V>>, hash: string -> nat, key: string)
    requires |s| > 0 && UniqueKeys(s)
    requires Find(s, hash(key) % |s|, key).Hit?
    ensures key in Assoc(LivePairs(s))
    ensures Find(s, hash(key) % |s|, key) == Hit(Assoc(LivePairs(s))[key])
  {
    var home := hash(key) % |s|;
    var x := Probe(home, FirstStop(s, home, key, UntilLive, 0).value, |s|);
    assert Live(s[x]) && s[x].key == key;
    AssocOfLivePairs(s);
    assert key in LiveKeys(s);
    assert key in Assoc(LivePairs(s));
    var i :| 0 <= i < |s| && Live(s[i]) && s[i].key == key && s[i].value == Assoc(LivePairs(s))[key];
    assert i == x;
  }

  /** Filtering never lengthens a sequence of slots. */
  lemma {:induction false} LivePairsShorter<V>(s: seq<Slot<V>>)
    ensures |LivePairs(s)| <= |s|
  {
    if s != [] {
      LivePairsShorter(s[..|s| - 1]);
    }
  }

  /** An all-empty array: nothing live, everything reachable, no
      tombstones; every lookup stops at its first probe. */
  lemma AllEmpty<V>(s: seq<Slot<V>>, hash: string -> nat)
    requires |s| > 0 && forall i :: 0 <= i < |s| ==> s[i].Empty?
    ensures LiveSet(s) == {} && LiveKeys(s) == {}
    ensures AllReachable(s, hash) && NoTombstones(s) && UniqueKeys(s)
    ensures forall home: nat, key :: Find(s, home, key) == Miss
  {
    forall home: nat, key
      ensures Find(s, home, key) == Miss
    {
      assert Stops(s[Probe(home, 0, |s|)], key, UntilLive);
    }
  }

  /** Without tombstones, remove's search stops where a lookup's does. */
  lemma {:induction false} SameStopWithoutTombstones<V>(s: seq<Slot<V>>, home: nat, key: string, j: nat)
    requires |s| > 0 && NoTombstones(s)
    ensures FirstStop(s, home, key, UntilKey, j) == FirstStop(s, home, key, UntilLive, j)
    decreases |s| - j
  {
    if j < |s| {
      var x := s[Probe(home, j, |s|)];
      assert Stops(x, key, UntilKey) == Stops(x, key, UntilLive);
      SameStopWithoutTombstones(s, home, key, j + 1);
    }
  }

  /** In a table without tombstones or duplicate keys, remove deletes
      exactly the key it is given. */
  lemma RemoveDeletes<V>(s: seq<Slot<V>>, hash: string -> nat, key: string)
    requires |s| > 0 && AllReachable(s, hash) && NoTombstones(s) && UniqueKeys(s)
    ensures LiveKeys(RemoveSlots(s, hash(key) % |s|, key)) == LiveKeys(s) - {key}
  {
    var home := hash(key) % |s|;
    var s' := RemoveSlots(s, home, key);
    SameStopWithoutTombstones(s, home, key, 0);
    FoundIffLive(s, hash, key);
    var r := FirstStop(s, home, key, UntilKey, 0);
    if key in LiveKeys(s) {
      var idx := Probe(home, r.value, |s|);
      assert Live(s[idx]) && s[idx].key == key;
      assert s' == s[idx := Entry(key, s[idx].value, true)];
      forall k | k in LiveKeys(s) - {key}
        ensures k in LiveKeys(s')
      {
        var i :| 0 <= i < |s| && Live(s[i]) && s[i].key == k;
        assert s'[i] == s[i];
      }
      forall k | k in LiveKeys(s')
        ensures k in LiveKeys(s) - {key}
      {
        var i :| 0 <= i < |s'| && Live(s'[i]) && s'[i].key == k;
        assert i != idx && s'[i] == s[i];
      }
    } else {
      assert s' == s;
    }
  }

  // ---------------------------------------------------------------------
  // The table as a map

  /** The slots hold exactly the map m: no tombstones, one live slot per key
      of m and none for other keys, every entry reachable along its probe
      sequence, and a lookup of each key of m finds its value. */
  ghost predicate Represents<V>(s: seq<Slot<V>>, hash: string -> nat, m: map<string, V>) {
    && |s| > 0 && NoTombstones(s) && UniqueKeys(s) && AllReachable(s, hash)
    && LiveKeys(s) == m.Keys
    && forall k :: k in m ==> Find(s, hash(k) % |s|, k) == Hit(m[k])
  }

  /** A represented map is determined by the slots: it is the map built from
      the live pairs, it has one key per live slot, and a key outside it is
      not found. */
  lemma RepresentsFacts<V>(s: seq<Slot<V>>, hash: string -> nat, m: map<string, V>)
    requires Represents(s, hash, m)
    ensures m == Assoc(LivePairs(s))
    ensures |LiveSet(s)| == |m.Keys|
    ensures forall k :: k !in m ==> !Find(s, hash(k) % |s|, k).Hit?
  {
    KeysCount(s);
    AssocOfLivePairs(s);
    forall k | k in m
      ensures m[k] == Assoc(LivePairs(s))[k]
    {
      UniqueHitIsAssoc(s, hash, k);
    }
    forall k | k !in m
      ensures !Find(s, hash(k) % |s|, k).Hit?
    {
      FoundIffLive(s, hash, k);
    }
  }

  /** Put on a table less than half full keeps it a representation, of the
      map updated at the key. */
  lemma RepresentsPut<V>(s: seq<Slot<V>>, hash: string -> nat, m: map<string, V>, key: string, value: V)
    requires Represents(s, hash, m) && IsPrime(|s|) && 2 * |LiveSet(s)| < |s|
    ensures FirstStop(s, hash(key) % |s|, key, UntilFree, 0).Some?
    ensures Represents(PutSlots(s, hash(key) % |s|, key, value), hash, m[key := value])
  {
    var home := hash(key) % |s|;
    FreeSlotEarly(s, home, key);
    PutReachable(s, hash, key, value);
    PutKeepsUnique(s, hash, key, value);
    PutLiveKeys(s, home, key, value);
    PutFindsKey(s, home, key, value);
    PutKeepsHits(s, hash, m, key, value);
  }

  /** Put keeps every other key's hit. */
  lemma PutKeepsHits<V>(s: seq<Slot<V>>, hash: string -> nat, m: map<string, V>, key: string, value: V)
    requires |s| > 0 && FirstStop(s, hash(key) % |s|, key, UntilFree, 0).Some?
    requires forall k :: k in m ==> Find(s, hash(k) % |s|, k) == Hit(m[k])
    ensures forall k :: k in m && k != key ==>
      Find(PutSlots(s, hash(key) % |s|, key, value), hash(k) % |s|, k) == Hit(m[k])
  {
    forall k | k in m && k != key
      ensures Find(PutSlots(s, hash(key) % |s|, key, value), hash(k) % |s|, k) == Hit(m[k])
    {
      PutKeepsHit(s, hash(key) % |s|, key, value, hash(k) % |s|, k);
    }
  }
}
