/** The mode of a token sequence, as find_mode computes it: the largest
    number of occurrences of any token, and the tokens that occur that
    often, each once, in the order in which they reached that count. */
module Frequency {
  import opened Options

  /** The number of occurrences of x in s. */
  function Count(s: seq<string>, x: string): nat {
    if s == [] then 0
    else Count(s[..|s| - 1], x) + if s[|s| - 1] == x then 1 else 0
  }

  /** The largest count of any token; only the last token's count grows
      when a token is appended. */
  function MaxFreq(s: seq<string>): nat {
    if s == [] then 0
    else
      var f := MaxFreq(s[..|s| - 1]);
      var c := Count(s, s[|s| - 1]);
      if c > f then c else f
  }

  /** The modal tokens: the appended token alone when its count passes the
      maximum so far, appended to the earlier ones when it equals it. */
  function Modes(s: seq<string>): seq<string> {
    if s == [] then []
    else
      var init := s[..|s| - 1];
      var last := s[|s| - 1];
      var c := Count(s, last);
      var f := MaxFreq(init);
      if c > f then [last]
      else if c == f then Modes(init) + [last]
      else Modes(init)
  }

  /** The length of the shortest prefix of s in which x occurs f times,
      that is one past the index of the f-th occurrence of x. */
  function Reach(s: seq<string>, x: string, f: nat): (n: nat)
    requires 0 < f <= Count(s, x)
    ensures 0 < n <= |s| && s[n - 1] == x
    ensures Count(s[..n - 1], x) == f - 1
  {
    var init := s[..|s| - 1];
    if Count(init, x) >= f then
      var n := Reach(init, x, f);
      assert s[..n - 1] == init[..n - 1];
      n
    else
      |s|
  }

  /** What a map of token counts holds for k after the tokens s: nothing
      for a token that does not occur, and its count otherwise. */
  function Tally(s: seq<string>, k: string): Option<nat> {
    if Count(s, k) == 0 then None else Some(Count(s, k))
  }

  /** A token occurs exactly when its count is positive. */
  lemma {:induction false} CountPositive(s: seq<string>, x: string)
    ensures Count(s, x) > 0 <==> x in s
  {
    if s != [] {
      var init := s[..|s| - 1];
      CountPositive(init, x);
      assert s == init + [s[|s| - 1]];
    }
  }

  /** Appending a token raises its tally by one and leaves the others. */
  lemma TallyStep(s: seq<string>, token: string)
    ensures Tally(s + [token], token) == Some(Count(s, token) + 1)
    ensures forall k :: k != token ==> Tally(s + [token], k) == Tally(s, k)
  {
    assert (s + [token])[..|s|] == s;
  }

  /** Count agrees with the multiset of the tokens. */
  lemma {:induction false} CountMultiset(s: seq<string>, x: string)
    ensures Count(s, x) == multiset(s)[x]
  {
    if s != [] {
      var init := s[..|s| - 1];
      CountMultiset(init, x);
      assert s == init + [s[|s| - 1]];
    }
  }

  /** No token occurs more often than MaxFreq, and MaxFreq is 0 only for
      the empty sequence. */
  lemma {:induction false} MaxFreqIsMax(s: seq<string>)
    ensures forall x :: Count(s, x) <= MaxFreq(s)
    ensures MaxFreq(s) == 0 <==> s == []
  {
    if s != [] {
      MaxFreqIsMax(s[..|s| - 1]);
    }
  }

  /** A token is modal exactly when it occurs MaxFreq times, and there is
      a modal token exactly when the sequence is not empty. */
  lemma {:induction false} ModesExactly(s: seq<string>)
    ensures forall x :: x in Modes(s) <==> MaxFreq(s) > 0 && Count(s, x) == MaxFreq(s)
    ensures Modes(s) == [] <==> s == []
  {
    if s != [] {
      var init := s[..|s| - 1];
      ModesExactly(init);
      MaxFreqIsMax(init);
    }
  }

  /** A token that already occurred f times in the prefix reached f there. */
  lemma ReachInit(s: seq<string>, x: string, f: nat)
    requires s != [] && 0 < f <= Count(s[..|s| - 1], x)
    ensures Reach(s, x, f) == Reach(s[..|s| - 1], x, f)
  {
  }

  /** The modal tokens are listed in the order in which they reached the
      maximal count, so none is listed twice. */
  lemma {:induction false} ModesOrdered(s: seq<string>)
    ensures forall x :: x in Modes(s) ==> 0 < MaxFreq(s) <= Count(s, x)
    ensures forall i, j :: 0 <= i < j < |Modes(s)| ==>
      Reach(s, Modes(s)[i], MaxFreq(s)) < Reach(s, Modes(s)[j], MaxFreq(s))
    ensures forall i, j :: 0 <= i < j < |Modes(s)| ==> Modes(s)[i] != Modes(s)[j]
  {
    ModesExactly(s);
    if s != [] {
      var init := s[..|s| - 1];
      var last := s[|s| - 1];
      var f := MaxFreq(init);
      var ms := Modes(init);
      ModesOrdered(init);
      ModesExactly(init);
      if Count(s, last) <= f {
        forall y | y in ms
          ensures Reach(s, y, f) == Reach(init, y, f) <= |init|
        {
          ReachInit(s, y, f);
        }
        var ms' := Modes(s);
        forall i, j | 0 <= i < j < |ms'|
          ensures Reach(s, ms'[i], f) < Reach(s, ms'[j], f)
        {
          assert ms'[i] == ms[i];
          if j < |ms| {
            assert ms'[j] == ms[j];
          } else {
            assert ms'[j] == last && Reach(s, last, f) == |s|;
          }
        }
      }
    }
  }

  /** Appending x to a sequence whose modes, maximal count and count of x
      are known: the find_mode update rule. */
  lemma AppendStep(s: seq<string>, x: string, ms: seq<string>, f: nat, c: nat)
    requires Modes(s) == ms && MaxFreq(s) == f && Count(s, x) == c
    ensures MaxFreq(s + [x]) == if c + 1 > f then c + 1 else f
    ensures Modes(s + [x]) == if c + 1 > f then [x] else if c + 1 == f then ms + [x] else ms
  {
    assert (s + [x])[..|s|] == s;
  }

  /** The example of a single mode. */
  lemma SingleModeExample()
    ensures Modes(["apple", "apple", "grape", "melon", "peach"]) == ["apple"]
    ensures MaxFreq(["apple", "apple", "grape", "melon", "peach"]) == 2
  {
    AppendStep([], "apple", [], 0, 0);
    assert [] + ["apple"] == ["apple"];
    AppendStep(["apple"], "apple", ["apple"], 1, 1);
    assert ["apple"] + ["apple"] == ["apple", "apple"];
    AppendStep(["apple", "apple"], "grape", ["apple"], 2, 0);
    assert ["apple", "apple"] + ["grape"] == ["apple", "apple", "grape"];
    AppendStep(["apple", "apple", "grape"], "melon", ["apple"], 2, 0);
    assert ["apple", "apple", "grape"] + ["melon"] == ["apple", "apple", "grape", "melon"];
    AppendStep(["apple", "apple", "grape", "melon"], "peach", ["apple"], 2, 0);
    assert ["apple", "apple", "grape", "melon"] + ["peach"] == ["apple", "apple", "grape", "melon", "peach"];
  }
}
