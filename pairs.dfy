/** Sequences of (key, value) pairs, as get_keys_and_values returns them,
    and the map that putting them in order produces. */
module Pairs {
  import opened Options

  /** The map obtained by inserting the pairs in order: a later pair for
      the same key wins. */
  ghost function Assoc<V>(ps: seq<(string, V)>): map<string, V> {
    if ps == [] then map[]
    else Assoc(ps[..|ps| - 1])[ps[|ps| - 1].0 := ps[|ps| - 1].1]
  }

  /** Inserting one more pair of a list updates the map at its key. */
  lemma AssocPrefix<V>(ps: seq<(string, V)>, i: nat)
    requires i < |ps|
    ensures Assoc(ps[..i + 1]) == Assoc(ps[..i])[ps[i].0 := ps[i].1]
  {
    assert ps[..i + 1][..i] == ps[..i];
  }

  /** Inserting n pairs gives a map with at most n keys. */
  lemma {:induction false} AssocKeysCount<V>(ps: seq<(string, V)>)
    ensures |Assoc(ps).Keys| <= |ps|
  {
    if ps != [] {
      var init := ps[..|ps| - 1];
      AssocKeysCount(init);
      assert Assoc(ps).Keys == Assoc(init).Keys + {ps[|ps| - 1].0};
    }
  }

  /** Putting two lists in turn: the second list's keys win. */
  lemma {:induction false} AssocConcat<V>(xs: seq<(string, V)>, ys: seq<(string, V)>)
    ensures Assoc(xs + ys) == Assoc(xs) + Assoc(ys)
  {
    if ys == [] {
      assert xs + ys == xs;
    } else {
      var init := ys[..|ys| - 1];
      var last := ys[|ys| - 1];
      AssocConcat(xs, init);
      assert (xs + ys)[..|xs + ys| - 1] == xs + init;
      assert (xs + ys)[|xs + ys| - 1] == last;
    }
  }

  /** Updating a map adds its key to the key set, if it was not there. */
  lemma UpdateKeysCount<V>(m: map<string, V>, k: string, v: V)
    ensures |m[k := v].Keys| == |m.Keys| + if k in m then 0 else 1
  {
    if k in m {
      assert m[k := v].Keys == m.Keys;
    } else {
      assert m[k := v].Keys == m.Keys + {k};
    }
  }

  /** The value a map holds for k, if any. */
  function MapGet<V>(m: map<string, V>, k: string): (r: Option<V>)
    ensures r.Some? <==> k in m
  {
    if k in m then Some(m[k]) else None
  }
}
