/** Stable sorting by a comparison, as the host language's array sort does it. */
module Sorting {
  import opened Prelude

  function Insert<T>(x: T, s: seq<T>, leq: (T, T) -> bool): seq<T> {
    if s == [] || !leq(s[0], x) then [x] + s else [s[0]] + Insert(x, s[1..], leq)
  }

  /** Later elements go after earlier ones that compare equal. */
  function Sort<T>(s: seq<T>, leq: (T, T) -> bool): seq<T> {
    if s == [] then [] else Insert(s[|s| - 1], Sort(s[..|s| - 1], leq), leq)
  }

  lemma SortSnoc<T>(s: seq<T>, x: T, leq: (T, T) -> bool)
    ensures Sort(s + [x], leq) == Insert(x, Sort(s, leq), leq)
  {
    assert (s + [x])[..|s|] == s;
  }

  lemma {:induction false} InsertMembers<T>(x: T, s: seq<T>, leq: (T, T) -> bool)
    ensures multiset(Insert(x, s, leq)) == multiset(s) + multiset{x}
  {
    if s != [] && leq(s[0], x) {
      var t := Insert(x, s[1..], leq);
      InsertMembers(x, s[1..], leq);
      assert s == [s[0]] + s[1..];
      assert multiset([s[0]] + t) == multiset{s[0]} + multiset(t);
    }
  }

  /** Sorting permutes, whatever the comparison does. */
  lemma {:induction false} SortMembers<T>(s: seq<T>, leq: (T, T) -> bool)
    ensures multiset(Sort(s, leq)) == multiset(s)
  {
    if s != [] {
      SortMembers(s[..|s| - 1], leq);
      InsertMembers(s[|s| - 1], Sort(s[..|s| - 1], leq), leq);
      assert s == s[..|s| - 1] + [s[|s| - 1]];
    }
  }

  lemma SameMembers<T>(a: seq<T>, b: seq<T>)
    requires multiset(a) == multiset(b)
    ensures |a| == |b| && forall x :: x in a <==> x in b
  {
    assert |multiset(a)| == |a| && |multiset(b)| == |b|;
    assert forall x :: x in a <==> x in multiset(a);
    assert forall x :: x in b <==> x in multiset(b);
  }

  lemma SortKeeps<T>(s: seq<T>, leq: (T, T) -> bool)
    ensures |Sort(s, leq)| == |s| && forall x :: x in Sort(s, leq) <==> x in s
  {
    SortMembers(s, leq);
    SameMembers(Sort(s, leq), s);
  }

  ghost predicate TotalPreorder<T(!new)>(leq: (T, T) -> bool) {
    && (forall x, y :: leq(x, y) || leq(y, x))
    && (forall x, y, z :: leq(x, y) && leq(y, z) ==> leq(x, z))
  }

  predicate Sorted<T>(s: seq<T>, leq: (T, T) -> bool) {
    forall i, j :: 0 <= i < j < |s| ==> leq(s[i], s[j])
  }

  lemma {:induction false} InsertSorted<T(!new)>(x: T, s: seq<T>, leq: (T, T) -> bool)
    requires TotalPreorder(leq) && Sorted(s, leq)
    ensures Sorted(Insert(x, s, leq), leq)
  {
    if s != [] && leq(s[0], x) {
      InsertSorted(x, s[1..], leq);
      var tail := Insert(x, s[1..], leq);
      InsertMembers(x, s[1..], leq);
      forall k | 0 <= k < |tail|
        ensures leq(s[0], tail[k])
      {
        assert tail[k] in multiset(tail);
        assert tail[k] in s[1..] || tail[k] == x;
      }
    }
  }

  lemma {:induction false} SortSorted<T(!new)>(s: seq<T>, leq: (T, T) -> bool)
    requires TotalPreorder(leq)
    ensures Sorted(Sort(s, leq), leq)
  {
    if s != [] {
      SortSorted(s[..|s| - 1], leq);
      InsertSorted(s[|s| - 1], Sort(s[..|s| - 1], leq), leq);
    }
  }

  // ----- stability

  lemma {:induction false} InsertPosition<T>(x: T, s: seq<T>, leq: (T, T) -> bool) returns (p: nat)
    ensures p <= |s| && Insert(x, s, leq) == Spliced(s, x, p)
    ensures (forall i :: 0 <= i < p ==> leq(s[i], x)) && (p < |s| ==> !leq(s[p], x))
  {
    if s == [] || !leq(s[0], x) {
      p := 0;
    } else {
      var q := InsertPosition(x, s[1..], leq);
      p := q + 1;
      assert s == [s[0]] + s[1..];
      assert s[..p] == [s[0]] + s[1..][..q] && s[p..] == s[1..][q..];
    }
  }

  /** `at` says where each element of `r` came from; elements that compare equal keep their order. */
  ghost predicate StableOrder<T(!new)>(s: seq<T>, r: seq<T>, at: seq<nat>, leq: (T, T) -> bool) {
    && |at| == |r| == |s| && Distinct(at)
    && (forall k :: 0 <= k < |at| ==> at[k] < |s| && r[k] == s[at[k]])
    && Sorted(r, leq)
    && (forall i, j :: 0 <= i < j < |r| && leq(r[j], r[i]) ==> at[i] < at[j])
  }

  function Spliced<T>(r: seq<T>, x: T, p: nat): (r': seq<T>)
    requires p <= |r|
    ensures |r'| == |r| + 1
    ensures forall i :: 0 <= i <= |r| ==> r'[i] == if i < p then r[i] else if i == p then x else r[i - 1]
  {
    r[..p] + [x] + r[p..]
  }

  lemma SplicedDistinct(at: seq<nat>, n: nat, p: nat)
    requires p <= |at| && Distinct(at) && forall k :: 0 <= k < |at| ==> at[k] < n
    ensures Distinct(Spliced(at, n, p))
  {
  }

  lemma InsertStable<T(!new)>(s: seq<T>, r: seq<T>, at: seq<nat>, x: T, p: nat, leq: (T, T) -> bool)
    requires TotalPreorder(leq) && StableOrder(s, r, at, leq) && p <= |r|
    requires (forall i :: 0 <= i < p ==> leq(r[i], x)) && (p < |r| ==> !leq(r[p], x))
    requires Sorted(Spliced(r, x, p), leq)
    ensures StableOrder(s + [x], Spliced(r, x, p), Spliced(at, |s|, p), leq)
  {
    hide TotalPreorder;
    var r', at' := Spliced(r, x, p), Spliced(at, |s|, p);
    SplicedDistinct(at, |s|, p);
    forall i, j | 0 <= i < j < |r'| && leq(r'[j], r'[i])
      ensures at'[i] < at'[j]
    {
      if i == p {
        NothingEqualAfter(r, x, p, j - 1, leq);
      }
    }
  }

  lemma NothingEqualAfter<T(!new)>(r: seq<T>, x: T, p: nat, j: nat, leq: (T, T) -> bool)
    requires TotalPreorder(leq) && Sorted(r, leq) && p <= j < |r| && !leq(r[p], x)
    ensures !leq(r[j], x)
  {
  }

  /** Sorting is stable. */
  lemma {:induction false} SortStable<T(!new)>(s: seq<T>, leq: (T, T) -> bool) returns (at: seq<nat>)
    requires TotalPreorder(leq)
    ensures StableOrder(s, Sort(s, leq), at, leq)
  {
    if s == [] {
      at := [];
    } else {
      hide TotalPreorder, StableOrder, Insert;
      var front, x := s[..|s| - 1], s[|s| - 1];
      assert s == front + [x];
      at := SortStable(front, leq);
      SortSorted(s, leq);
      var p := InsertPosition(x, Sort(front, leq), leq);
      SortKeeps(front, leq);
      InsertStable(front, Sort(front, leq), at, x, p, leq);
      StableLength(front, Sort(front, leq), at, leq);
      at := Spliced(at, |front|, p);
    }
  }

  lemma StableLength<T(!new)>(s: seq<T>, r: seq<T>, at: seq<nat>, leq: (T, T) -> bool)
    requires StableOrder(s, r, at, leq)
    ensures |at| == |r|
  {
  }

  /** Duplicates survive a permutation, and none appear. */
  lemma {:induction false} DistinctCounts<T>(s: seq<T>)
    ensures Distinct(s) <==> forall x :: multiset(s)[x] <= 1
  {
    if s != [] {
      var t := s[1..];
      assert s == [s[0]] + t;
      DistinctCounts(t);
      assert forall x :: multiset(s)[x] == multiset(t)[x] + if x == s[0] then 1 else 0;
      assert s[0] in t <==> multiset(t)[s[0]] > 0;
      if Distinct(s) {
        assert s[0] !in t;
        assert Distinct(t);
      }
      if forall x :: multiset(s)[x] <= 1 {
        assert forall x :: multiset(t)[x] <= multiset(s)[x];
        assert multiset(t)[s[0]] == 0;
        assert Distinct(t) && s[0] !in t;
      }
    }
  }

  lemma SortDistinct<T>(s: seq<T>, leq: (T, T) -> bool)
    requires Distinct(s)
    ensures Distinct(Sort(s, leq))
  {
    SortMembers(s, leq);
    DistinctCounts(s);
    DistinctCounts(Sort(s, leq));
  }
}
