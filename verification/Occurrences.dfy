/** Finding a search term in a text: greedy occurrences, and subsequences for fuzzy matches. */
module Occurrences {
  import opened Prelude

  /** The first occurrence at or after `from`, or -1. */
  function IndexOf(text: string, term: string, from: nat): (r: int)
    ensures -1 <= r
    ensures r != -1 ==> from <= r && At(text, r, term)
    ensures forall i: nat :: from <= i && (r == -1 || i < r) ==> !At(text, i, term)
    decreases |text| - from
  {
    if from + |term| > |text| then -1
    else if At(text, from, term) then from
    else IndexOf(text, term, from + 1)
  }

  function Greedy(text: string, term: string, from: nat): seq<nat>
    requires term != []
    decreases |text| - from
  {
    var i := IndexOf(text, term, from);
    if i == -1 then [] else [i as nat] + Greedy(text, term, i + |term|)
  }

  lemma GreedyStep(text: string, term: string, from: nat)
    requires term != []
    ensures var i := IndexOf(text, term, from);
            if i == -1 then Greedy(text, term, from) == []
            else i + |term| <= |text| && Greedy(text, term, from) == [i as nat] + Greedy(text, term, i + |term|)
  {
  }

  /** With an empty term the search would never advance; its callers drop empty terms. */
  method FindAllOccurrences(text: string, term: string) returns (positions: seq<nat>)
    requires term != []
    ensures positions == Greedy(text, term, 0)
  {
    hide Greedy, IndexOf, At;
    positions := [];
    var idx := 0;
    while true
      invariant 0 <= idx
      invariant positions + Greedy(text, term, idx) == Greedy(text, term, 0)
      decreases |text| - idx
    {
      var i := IndexOf(text, term, idx);
      GreedyStep(text, term, idx);
      if i == -1 {
        return;
      }
      positions := positions + [i];
      idx := i + |term|;
    }
  }

  // ----- the search ends exactly for non-empty terms

  /** The search loop: the positions so far and where to look next, or the result. */
  datatype Search = Searching(positions: seq<nat>, idx: nat) | Ended(positions: seq<nat>)

  function Turn(text: string, term: string, s: Search): Search {
    if s.Ended? then s
    else
      var i := IndexOf(text, term, s.idx);
      if i == -1 then Ended(s.positions) else Searching(s.positions + [i], i + |term|)
  }

  function Turns(text: string, term: string, n: nat): Search {
    if n == 0 then Searching([], 0) else Turn(text, term, Turns(text, term, n - 1))
  }

  /** An empty term is found at the start again and again. */
  lemma {:induction false} EmptyTermStays(text: string, n: nat)
    ensures var s := Turns(text, [], n); s.Searching? && s.idx == 0 && |s.positions| == n
  {
    if n != 0 {
      EmptyTermStays(text, n - 1);
    }
  }

  /** Every turn with a non-empty term advances, within the text, along the greedy positions. */
  lemma {:induction false} TermAdvances(text: string, term: string, n: nat)
    requires term != []
    ensures var s := Turns(text, term, n);
            if s.Ended? then s.positions == Greedy(text, term, 0)
            else n <= s.idx <= |text| && s.positions + Greedy(text, term, s.idx) == Greedy(text, term, 0)
  {
    hide Greedy, IndexOf, At;
    if n != 0 {
      TermAdvances(text, term, n - 1);
      var s := Turns(text, term, n - 1);
      if s.Searching? {
        GreedyStep(text, term, s.idx);
      }
    }
  }

  lemma SearchEndsIff(text: string, term: string)
    ensures (exists n: nat :: Turns(text, term, n).Ended?) <==> term != []
  {
    hide Turns;
    if term == [] {
      forall n: nat
        ensures !Turns(text, term, n).Ended?
      {
        EmptyTermStays(text, n);
      }
    } else {
      TermAdvances(text, term, |text| + 1);
    }
  }

  // ----- what the greedy positions are

  ghost predicate Ordered(text: string, term: string, from: nat, g: seq<nat>) {
    && (forall i :: 0 <= i < |g| ==> from <= g[i] && At(text, g[i], term))
    && (forall i, j :: 0 <= i < j < |g| ==> g[i] + |term| <= g[j])
  }

  lemma OrderedCons(text: string, term: string, from: nat, i: nat, g: seq<nat>)
    requires from <= i && At(text, i, term) && Ordered(text, term, i + |term|, g)
    ensures Ordered(text, term, from, [i] + g)
  {
    hide At;
  }

  /** Reported positions are occurrences, in order and without overlap. */
  lemma {:induction false} GreedyOrdered(text: string, term: string, from: nat)
    requires term != []
    ensures Ordered(text, term, from, Greedy(text, term, from))
    decreases |text| - from
  {
    hide Greedy, IndexOf, At;
    GreedyStep(text, term, from);
    var i := IndexOf(text, term, from);
    if i != -1 {
      GreedyOrdered(text, term, i + |term|);
      OrderedCons(text, term, from, i, Greedy(text, term, i + |term|));
    }
  }

  predicate Overlap(i: nat, j: nat, n: nat) { i < j + n && j < i + n }

  /** Every occurrence that is not reported overlaps one that is. */
  lemma {:induction false} GreedyMaximal(text: string, term: string, from: nat, i: nat)
    requires term != [] && from <= i && At(text, i, term)
    ensures exists k :: 0 <= k < |Greedy(text, term, from)| && Overlap(i, Greedy(text, term, from)[k], |term|)
    decreases |text| - from
  {
    var g := Greedy(text, term, from);
    if i < g[0] + |term| {
      assert Overlap(i, g[0], |term|);
    } else {
      GreedyMaximal(text, term, g[0] + |term|, i);
      var rest := Greedy(text, term, g[0] + |term|);
      var k :| 0 <= k < |rest| && Overlap(i, rest[k], |term|);
      assert g[k + 1] == rest[k];
    }
  }

  /** Where the search for the k-th occurrence starts. */
  function SearchFrom(g: seq<nat>, n: nat, from: nat, k: nat): nat
    requires k <= |g|
  {
    if k == 0 then from else g[k - 1] + n
  }

  /** Each reported position is the first occurrence after the one before it, and none follows the last. */
  lemma {:induction false} GreedyFirst(text: string, term: string, from: nat, k: nat, x: nat)
    requires term != [] && k <= |Greedy(text, term, from)|
    requires SearchFrom(Greedy(text, term, from), |term|, from, k) <= x
    requires k < |Greedy(text, term, from)| ==> x < Greedy(text, term, from)[k]
    ensures !At(text, x, term)
    decreases |text| - from
  {
    hide IndexOf, At, Greedy;
    GreedyStep(text, term, from);
    var i := IndexOf(text, term, from);
    if i != -1 && k > 0 {
      var rest := Greedy(text, term, i + |term|);
      GreedyFirst(text, term, i + |term|, k - 1, x);
    }
  }

  /** A set of occurrences of which no two overlap. */
  ghost predicate Separate(text: string, term: string, s: set<nat>) {
    && (forall i :: i in s ==> At(text, i, term))
    && (forall i, j :: i in s && j in s && i != j ==> !Overlap(i, j, |term|))
  }

  /** No set of separate occurrences is larger than the reported one. */
  lemma {:induction false} GreedyMaximum(text: string, term: string, from: nat, s: set<nat>)
    requires term != [] && Separate(text, term, s)
    requires forall i :: i in s ==> from <= i
    ensures |s| <= |Greedy(text, term, from)|
    decreases |text| - from
  {
    hide Greedy, IndexOf;
    GreedyStep(text, term, from);
    var i := IndexOf(text, term, from);
    if i == -1 {
      assert s == {};
    } else {
      var early := set x | x in s && x < i + |term|;
      AtMostOne(text, term, i, early);
      var late := s - early;
      GreedyMaximum(text, term, i + |term|, late);
      assert |s| == |early| + |late|;
    }
  }

  lemma AtMostOne(text: string, term: string, i: nat, early: set<nat>)
    requires Separate(text, term, early) && forall x :: x in early ==> i <= x < i + |term|
    ensures |early| <= 1
  {
    if early != {} {
      var x :| x in early;
      assert early == {x};
    }
  }

  // ----- subsequences

  /** Increasing positions of `hay` at which the letters of `needle` stand. */
  ghost predicate Spells(needle: string, hay: string, at: seq<nat>) {
    && |at| == |needle|
    && (forall k :: 0 <= k < |at| ==> at[k] < |hay| && hay[at[k]] == needle[k])
    && (forall k, l :: 0 <= k < l < |at| ==> at[k] < at[l])
  }

  ghost predicate IsSubsequence(needle: string, hay: string) {
    exists at :: Spells(needle, hay, at)
  }

  /**
   The greedy scan decides the question: `at` spells what has been matched, and any other
   spelling of one more letter stands at or after `j`.
   */
  method Subsequence(needle: string, hay: string) returns (r: bool)
    ensures r <==> IsSubsequence(needle, hay)
  {
    var i, j := 0, 0;
    ghost var at: seq<nat> := [];
    while j < |hay| && i < |needle|
      invariant 0 <= i <= |needle| && 0 <= j <= |hay|
      invariant Spells(needle[..i], hay[..j], at)
      invariant forall other :: Spells(needle, hay, other) && i < |needle| ==> j <= other[i]
    {
      if hay[j] == needle[i] {
        ghost var next := at + [j as nat];
        assert Spells(needle[..i + 1], hay[..j + 1], next);
        at := next;
        i := i + 1;
        forall other | Spells(needle, hay, other) && i < |needle|
          ensures j + 1 <= other[i]
        {
          assert j <= other[i - 1] < other[i];
        }
      } else {
        assert Spells(needle[..i], hay[..j + 1], at);
        forall other | Spells(needle, hay, other)
          ensures j + 1 <= other[i]
        {
          assert hay[other[i]] == needle[i];
        }
      }
      j := j + 1;
    }
    r := i == |needle|;
    if r {
      assert needle[..i] == needle;
      assert Spells(needle, hay, at);
    } else {
      forall other | Spells(needle, hay, other)
        ensures false
      {
      }
    }
  }
}
