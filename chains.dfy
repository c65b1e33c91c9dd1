/** The buckets of the separate-chaining hash map as values. A bucket is the
    linked list of nodes kept by the source, head first; the array of
    buckets is flattened in index order by get_keys_and_values. */
module Chains {
  import opened Options
  import opened Pairs

  /** A node of a bucket's linked list. */
  datatype Node<V> = Node(key: string, value: V)

  /** The position of the first node holding key, scanning from the head. */
  function IndexOf<V>(b: seq<Node<V>>, key: string): (r: Option<nat>)
    ensures r.Some? ==> r.value < |b| && b[r.value].key == key
    ensures r.Some? ==> forall j :: 0 <= j < r.value ==> b[j].key != key
    ensures r.None? ==> forall j :: 0 <= j < |b| ==> b[j].key != key
  {
    if b == [] then None
    else if b[0].key == key then Some(0)
    else match IndexOf(b[1..], key)
      case None => None
      case Some(i) => Some(i + 1)
  }

  /** The value of the first node holding key, if any. */
  function ChainGet<V>(b: seq<Node<V>>, key: string): Option<V> {
    match IndexOf(b, key)
    case None => None
    case Some(i) => Some(b[i].value)
  }

  /** put on one bucket: the first node holding key gets the new value;
      with none, a node is inserted at the head. */
  function PutChain<V>(b: seq<Node<V>>, key: string, value: V): seq<Node<V>> {
    match IndexOf(b, key)
    case Some(i) => b[i := Node(key, value)]
    case None => [Node(key, value)] + b
  }

  /** The list's removal by key: the first node holding key is unlinked,
      and the flag says whether one was. */
  function ChainRemove<V>(b: seq<Node<V>>, key: string): (r: (seq<Node<V>>, bool))
    ensures r.1 <==> IndexOf(b, key).Some?
  {
    match IndexOf(b, key)
    case Some(i) => (b[..i] + b[i + 1..], true)
    case None => (b, false)
  }

  ghost function Keys<V>(b: seq<Node<V>>): set<string> {
    set j | 0 <= j < |b| :: b[j].key
  }

  ghost predicate UniqueKeys<V>(b: seq<Node<V>>) {
    forall i, j :: 0 <= i < j < |b| ==> b[i].key != b[j].key
  }

  /** Bucket i of cap buckets: its keys are distinct and all hash to i. */
  ghost predicate ChainPlaced<V>(b: seq<Node<V>>, hash: string -> nat, cap: nat, i: int) {
    && cap > 0
    && UniqueKeys(b)
    && forall j :: 0 <= j < |b| ==> hash(b[j].key) % cap == i
  }

  /** Every bucket is placed at its own index. */
  ghost predicate Placed<V>(bs: seq<seq<Node<V>>>, hash: string -> nat) {
    forall i :: 0 <= i < |bs| ==> ChainPlaced(bs[i], hash, |bs|, i)
  }

  /** The (key, value) pairs of one bucket, head first. */
  function NodePairs<V>(b: seq<Node<V>>): (r: seq<(string, V)>)
    ensures |r| == |b|
    ensures forall j :: 0 <= j < |b| ==> r[j] == (b[j].key, b[j].value)
  {
    seq(|b|, j requires 0 <= j < |b| => (b[j].key, b[j].value))
  }

  /** All pairs, bucket after bucket in index order. */
  function Flatten<V>(bs: seq<seq<Node<V>>>): seq<(string, V)> {
    if bs == [] then []
    else Flatten(bs[..|bs| - 1]) + NodePairs(bs[|bs| - 1])
  }

  /** What a lookup of key finds: the first match in its home bucket. */
  function TableGet<V>(bs: seq<seq<Node<V>>>, hash: string -> nat, key: string): Option<V>
    requires |bs| > 0
  {
    ChainGet(bs[hash(key) % |bs|], key)
  }

  /** put without a rebuild: only the key's home bucket changes. */
  function PutTable<V>(bs: seq<seq<Node<V>>>, hash: string -> nat, key: string, value: V): (r: seq<seq<Node<V>>>)
    requires |bs| > 0
    ensures |r| == |bs|
  {
    bs[hash(key) % |bs| := PutChain(bs[hash(key) % |bs|], key, value)]
  }

  /** remove: the list removal in the key's home bucket. */
  function RemoveTable<V>(bs: seq<seq<Node<V>>>, hash: string -> nat, key: string): (r: seq<seq<Node<V>>>)
    requires |bs| > 0
    ensures |r| == |bs|
  {
    bs[hash(key) % |bs| := ChainRemove(bs[hash(key) % |bs|], key).0]
  }

  /** The empty buckets among the first n. */
  ghost function EmptyBelow<V>(bs: seq<seq<Node<V>>>, n: int): set<int> {
    set i | 0 <= i < n && i < |bs| && bs[i] == []
  }

  // ---------------------------------------------------------------------
  // One bucket

  /** The first match is the only candidate: a node holding key with no
      earlier node holding it is the one IndexOf finds. */
  lemma IndexOfAt<V>(b: seq<Node<V>>, key: string, i: nat)
    requires i < |b| && b[i].key == key
    requires forall j :: 0 <= j < i ==> b[j].key != key
    ensures IndexOf(b, key) == Some(i)
  {
  }

  /** A key is found exactly when some node holds it. */
  lemma ChainGetKeys<V>(b: seq<Node<V>>, key: string)
    ensures ChainGet(b, key).Some? <==> key in Keys(b)
  {
    if key in Keys(b) {
      var j :| 0 <= j < |b| && b[j].key == key;
    }
  }

  /** After put on a bucket, key is found with value and every other key
      is found as before; the bucket grows by one node exactly when key was
      absent, keeps distinct keys and gains key. */
  lemma PutChainEffects<V>(b: seq<Node<V>>, key: string, value: V)
    requires UniqueKeys(b)
    ensures ChainGet(PutChain(b, key, value), key) == Some(value)
    ensures forall k :: k != key ==> ChainGet(PutChain(b, key, value), k) == ChainGet(b, k)
    ensures |PutChain(b, key, value)| == |b| + if ChainGet(b, key).None? then 1 else 0
    ensures UniqueKeys(PutChain(b, key, value))
    ensures Keys(PutChain(b, key, value)) == Keys(b) + {key}
  {
    var b' := PutChain(b, key, value);
    match IndexOf(b, key)
    case Some(i) =>
      IndexOfAt(b', key, i);
      forall k | k != key
        ensures ChainGet(b', k) == ChainGet(b, k)
      {
        match IndexOf(b, k)
        case Some(t) => IndexOfAt(b', k, t);
        case None =>
      }
      assert Keys(b') == Keys(b) + {key} by {
        assert forall j :: 0 <= j < |b| ==> b'[j].key == b[j].key;
      }
    case None =>
      IndexOfAt(b', key, 0);
      forall k | k != key
        ensures ChainGet(b', k) == ChainGet(b, k)
      {
        match IndexOf(b, k)
        case Some(t) => IndexOfAt(b', k, t + 1);
        case None =>
      }
      assert Keys(b') == Keys(b) + {key} by {
        assert forall j :: 0 < j < |b'| ==> b'[j] == b[j - 1];
        forall x | x in Keys(b)
          ensures x in Keys(b')
        {
          var j :| 0 <= j < |b| && b[j].key == x;
          assert b'[j + 1].key == x;
        }
      }
  }

  /** After removal from a bucket with distinct keys, key is not found,
      every other key is found as before, the bucket shrinks by one node
      exactly when key was present, and loses key. */
  lemma RemoveChainEffects<V>(b: seq<Node<V>>, key: string)
    requires UniqueKeys(b)
    ensures ChainGet(ChainRemove(b, key).0, key) == None
    ensures forall k :: k != key ==> ChainGet(ChainRemove(b, key).0, k) == ChainGet(b, k)
    ensures |ChainRemove(b, key).0| == |b| - if ChainGet(b, key).Some? then 1 else 0
    ensures UniqueKeys(ChainRemove(b, key).0)
    ensures Keys(ChainRemove(b, key).0) == Keys(b) - {key}
  {
    var b' := ChainRemove(b, key).0;
    match IndexOf(b, key)
    case None =>
    case Some(i) =>
      assert forall j :: 0 <= j < i ==> b'[j] == b[j];
      assert forall j :: i <= j < |b'| ==> b'[j] == b[j + 1];
      forall k | k != key
        ensures ChainGet(b', k) == ChainGet(b, k)
      {
        match IndexOf(b, k)
        case Some(t) =>
          if t < i {
            IndexOfAt(b', k, t);
          } else {
            IndexOfAt(b', k, t - 1);
          }
        case None =>
      }
      assert Keys(b') == Keys(b) - {key} by {
        forall x | x in Keys(b) - {key}
          ensures x in Keys(b')
        {
          var j :| 0 <= j < |b| && b[j].key == x;
          if j < i {
            assert b'[j].key == x;
          } else {
            assert b'[j - 1].key == x;
          }
        }
      }
  }

  /** A lookup in a bucket with one more node at the tail finds the old
      match if there was one, and otherwise the tail node if it matches. */
  lemma ChainGetSnoc<V>(b: seq<Node<V>>, k: string)
    requires b != []
    ensures ChainGet(b, k) ==
      (if IndexOf(b[..|b| - 1], k).Some? then ChainGet(b[..|b| - 1], k)
       else if b[|b| - 1].key == k then Some(b[|b| - 1].value) else None)
  {
    var init := b[..|b| - 1];
    match IndexOf(init, k)
    case Some(t) => IndexOfAt(b, k, t);
    case None =>
      if b[|b| - 1].key == k {
        IndexOfAt(b, k, |b| - 1);
      }
  }

  /** The pairs of a bucket without its tail node are the pairs without
      the tail pair. */
  lemma NodePairsInit<V>(b: seq<Node<V>>)
    requires b != []
    ensures NodePairs(b)[..|b| - 1] == NodePairs(b[..|b| - 1])
    ensures Assoc(NodePairs(b)) == Assoc(NodePairs(b[..|b| - 1]))[b[|b| - 1].key := b[|b| - 1].value]
  {
    assert NodePairs(b)[..|b| - 1] == NodePairs(b[..|b| - 1]);
  }

  /** Putting a bucket's pairs in order yields the map its lookups give. */
  lemma {:induction false} ChainAssoc<V>(b: seq<Node<V>>)
    requires UniqueKeys(b)
    ensures forall k :: MapGet(Assoc(NodePairs(b)), k) == ChainGet(b, k)
  {
    if b != [] {
      ChainAssoc(b[..|b| - 1]);
      NodePairsInit(b);
      var init, last := b[..|b| - 1], b[|b| - 1];
      assert forall t :: 0 <= t < |init| ==> init[t].key != last.key;
      forall k
        ensures MapGet(Assoc(NodePairs(b)), k) == ChainGet(b, k)
      {
        ChainGetSnoc(b, k);
        if k == last.key {
          assert IndexOf(init, k).None?;
        } else {
          assert MapGet(Assoc(NodePairs(b)), k) == MapGet(Assoc(NodePairs(init)), k);
        }
      }
    }
  }

  /** A bucket with distinct keys has one key per node, and they are the
      keys of the map its pairs build. */
  lemma {:induction false} ChainKeys<V>(b: seq<Node<V>>)
    requires UniqueKeys(b)
    ensures Assoc(NodePairs(b)).Keys == Keys(b)
    ensures |Keys(b)| == |b|
  {
    if b != [] {
      var init := b[..|b| - 1];
      var last := b[|b| - 1];
      ChainKeys(init);
      NodePairsInit(b);
      KeysSnoc(b);
      assert last.key !in Keys(init);
    }
  }

  /** The keys of a bucket are those without its tail node plus the tail
      node's key. */
  lemma KeysSnoc<V>(b: seq<Node<V>>)
    requires b != []
    ensures Keys(b) == Keys(b[..|b| - 1]) + {b[|b| - 1].key}
  {
    var init := b[..|b| - 1];
    forall x | x in Keys(b)
      ensures x in Keys(init) + {b[|b| - 1].key}
    {
      var j :| 0 <= j < |b| && b[j].key == x;
      if j < |init| {
        assert init[j].key == x;
      }
    }
    forall x | x in Keys(init)
      ensures x in Keys(b)
    {
      var j :| 0 <= j < |init| && init[j].key == x;
      assert b[j].key == x;
    }
  }

  // ---------------------------------------------------------------------
  // The whole array of buckets

  /** Flattening one more bucket appends its pairs. */
  lemma FlattenStep<V>(bs: seq<seq<Node<V>>>, n: nat)
    requires n < |bs|
    ensures Flatten(bs[..n + 1]) == Flatten(bs[..n]) + NodePairs(bs[n])
  {
    assert bs[..n + 1][..n] == bs[..n];
  }

  /** The pairs of the first n buckets build the map whose lookups are the
      bucket lookups of keys hashing below n, with one key per pair. */
  lemma {:induction false} FlattenPrefix<V>(bs: seq<seq<Node<V>>>, hash: string -> nat, n: nat)
    requires |bs| > 0 && Placed(bs, hash) && n <= |bs|
    ensures forall k ::
      MapGet(Assoc(Flatten(bs[..n])), k) == (if hash(k) % |bs| < n then ChainGet(bs[hash(k) % |bs|], k) else None)
    ensures |Assoc(Flatten(bs[..n])).Keys| == |Flatten(bs[..n])|
  {
    if n == 0 {
      assert bs[..0] == [];
    } else {
      var m := n - 1;
      FlattenPrefix(bs, hash, m);
      FlattenStep(bs, m);
      var before := Assoc(Flatten(bs[..m]));
      var here := Assoc(NodePairs(bs[m]));
      AssocConcat(Flatten(bs[..m]), NodePairs(bs[m]));
      assert ChainPlaced(bs[m], hash, |bs|, m);
      ChainAssoc(bs[m]);
      ChainKeys(bs[m]);
      forall k
        ensures MapGet(before + here, k) ==
          (if hash(k) % |bs| < n then ChainGet(bs[hash(k) % |bs|], k) else None)
      {
        if hash(k) % |bs| != m {
          assert k !in Keys(bs[m]);
        }
      }
      assert before.Keys !! here.Keys by {
        forall k | k in here
          ensures k !in before
        {
          assert MapGet(before, k) == None;
        }
      }
      assert (before + here).Keys == before.Keys + here.Keys;
    }
  }

  /** The bucket lookup of every key agrees with the map built from all
      pairs in index order, and no key occurs in two pairs. */
  lemma FlattenLookup<V>(bs: seq<seq<Node<V>>>, hash: string -> nat)
    requires |bs| > 0 && Placed(bs, hash)
    ensures forall k :: TableGet(bs, hash, k) == MapGet(Assoc(Flatten(bs)), k)
    ensures |Assoc(Flatten(bs)).Keys| == |Flatten(bs)|
  {
    FlattenPrefix(bs, hash, |bs|);
    assert bs[..|bs|] == bs;
  }

  /** Replacing one bucket changes the number of pairs by the difference
      of the bucket lengths. */
  lemma {:induction false} FlattenUpdate<V>(bs: seq<seq<Node<V>>>, h: nat, b: seq<Node<V>>)
    requires h < |bs|
    ensures |Flatten(bs[h := b])| == |Flatten(bs)| - |bs[h]| + |b|
  {
    var bs' := bs[h := b];
    var n := |bs| - 1;
    assert bs'[..n] == if h == n then bs[..n] else bs[..n][h := b];
    if h < n {
      FlattenUpdate(bs[..n], h, b);
    }
  }

  /** Each non-empty bucket among the first n holds at least one pair. */
  lemma {:induction false} NonEmptyBound<V>(bs: seq<seq<Node<V>>>, n: nat)
    requires n <= |bs|
    ensures n - |EmptyBelow(bs, n)| <= |Flatten(bs[..n])|
  {
    if n > 0 {
      NonEmptyBound(bs, n - 1);
      EmptyBelowStep(bs, n - 1);
      FlattenStep(bs, n - 1);
    }
  }

  /** Counting one more bucket adds one empty bucket exactly when it is
      empty. */
  lemma EmptyBelowStep<V>(bs: seq<seq<Node<V>>>, i: nat)
    requires i < |bs|
    ensures |EmptyBelow(bs, i + 1)| == |EmptyBelow(bs, i)| + if bs[i] == [] then 1 else 0
  {
    if bs[i] == [] {
      assert EmptyBelow(bs, i + 1) == EmptyBelow(bs, i) + {i};
    } else {
      assert EmptyBelow(bs, i + 1) == EmptyBelow(bs, i);
    }
  }

  /** An all-empty array is placed, holds no pairs and finds no key. */
  lemma AllEmpty<V>(bs: seq<seq<Node<V>>>, hash: string -> nat)
    requires |bs| > 0 && forall i :: 0 <= i < |bs| ==> bs[i] == []
    ensures Placed(bs, hash) && Flatten(bs) == []
    ensures forall k :: TableGet(bs, hash, k) == None
  {
    FlattenEmpty(bs);
  }

  lemma {:induction false} FlattenEmpty<V>(bs: seq<seq<Node<V>>>)
    requires forall i :: 0 <= i < |bs| ==> bs[i] == []
    ensures Flatten(bs) == []
  {
    if bs != [] {
      FlattenEmpty(bs[..|bs| - 1]);
    }
  }

  /** With every bucket empty, all of the first n buckets count as empty. */
  lemma {:induction false} AllEmptyCount<V>(bs: seq<seq<Node<V>>>, n: nat)
    requires n <= |bs| && forall i :: 0 <= i < |bs| ==> bs[i] == []
    ensures |EmptyBelow(bs, n)| == n
  {
    if n > 0 {
      AllEmptyCount(bs, n - 1);
      EmptyBelowStep(bs, n - 1);
    }
  }

  // ---------------------------------------------------------------------
  // The table operations

  /** Replacing bucket h by a bucket placed at h keeps the array placed. */
  lemma PlacedUpdate<V>(bs: seq<seq<Node<V>>>, hash: string -> nat, h: nat, b: seq<Node<V>>)
    requires Placed(bs, hash) && h < |bs|
    requires UniqueKeys(b) && forall x :: x in Keys(b) ==> hash(x) % |bs| == h
    ensures Placed(bs[h := b], hash)
  {
    forall j | 0 <= j < |b|
      ensures hash(b[j].key) % |bs| == h
    {
      assert b[j].key in Keys(b);
    }
  }

  /** put on a placed table keeps it placed, adds a pair exactly when the
      key was absent, finds the key with the new value and every other key
      as before. */
  lemma PutTableEffects<V>(bs: seq<seq<Node<V>>>, hash: string -> nat, key: string, value: V)
    requires |bs| > 0 && Placed(bs, hash)
    ensures Placed(PutTable(bs, hash, key, value), hash)
    ensures |Flatten(PutTable(bs, hash, key, value))| == |Flatten(bs)| + if TableGet(bs, hash, key).None? then 1 else 0
    ensures TableGet(PutTable(bs, hash, key, value), hash, key) == Some(value)
    ensures forall k :: k != key ==> TableGet(PutTable(bs, hash, key, value), hash, k) == TableGet(bs, hash, k)
  {
    var h := hash(key) % |bs|;
    var b := bs[h];
    assert ChainPlaced(b, hash, |bs|, h);
    PutChainEffects(b, key, value);
    var b' := PutChain(b, key, value);
    forall x | x in Keys(b')
      ensures hash(x) % |bs| == h
    {
      if x != key {
        var j :| 0 <= j < |b| && b[j].key == x;
      }
    }
    PlacedUpdate(bs, hash, h, b');
    FlattenUpdate(bs, h, b');
  }

  /** remove on a placed table keeps it placed, drops a pair exactly when
      the key was present, finds the key no more and every other key as
      before. */
  lemma RemoveTableEffects<V>(bs: seq<seq<Node<V>>>, hash: string -> nat, key: string)
    requires |bs| > 0 && Placed(bs, hash)
    ensures Placed(RemoveTable(bs, hash, key), hash)
    ensures |Flatten(RemoveTable(bs, hash, key))| == |Flatten(bs)| - if TableGet(bs, hash, key).Some? then 1 else 0
    ensures TableGet(RemoveTable(bs, hash, key), hash, key) == None
    ensures forall k :: k != key ==> TableGet(RemoveTable(bs, hash, key), hash, k) == TableGet(bs, hash, k)
    ensures ChainRemove(bs[hash(key) % |bs|], key).1 <==> TableGet(bs, hash, key).Some?
  {
    var h := hash(key) % |bs|;
    var b := bs[h];
    assert ChainPlaced(b, hash, |bs|, h);
    RemoveChainEffects(b, key);
    var b' := ChainRemove(b, key).0;
    forall x | x in Keys(b')
      ensures hash(x) % |bs| == h
    {
      var j :| 0 <= j < |b| && b[j].key == x;
    }
    PlacedUpdate(bs, hash, h, b');
    FlattenUpdate(bs, h, b');
  }
}
