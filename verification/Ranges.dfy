/** Highlight ranges: merging them in place, and the canonical form this gives. */
module Ranges {
  import opened Prelude
  import opened Sorting

  datatype Range = Range(start: nat, end: nat)

  /** Some range covers the position. */
  predicate Covers(rs: seq<Range>, x: nat) {
    exists i :: 0 <= i < |rs| && rs[i].start <= x < rs[i].end
  }

  predicate NonEmpty(rs: seq<Range>) { forall i :: 0 <= i < |rs| ==> rs[i].start < rs[i].end }

  predicate ByStart(rs: seq<Range>) { forall i, j :: 0 <= i < j < |rs| ==> rs[i].start <= rs[j].start }

  /** Ordered, with a gap between any two ranges. */
  predicate Gaps(rs: seq<Range>) { forall i, j :: 0 <= i < j < |rs| ==> rs[i].end < rs[j].start }

  predicate Canonical(rs: seq<Range>) { NonEmpty(rs) && Gaps(rs) }

  // ----- sorting and merging, on values

  predicate StartsFirst(a: Range, b: Range) { a.start <= b.start }

  function Absorb(acc: seq<Range>, rest: seq<Range>): seq<Range>
    requires acc != []
    decreases |rest|
  {
    if rest == [] then acc
    else
      var last := acc[|acc| - 1];
      if rest[0].start <= last.end then
        Absorb(acc[|acc| - 1 := last.(end := Max(last.end, rest[0].end))], rest[1..])
      else Absorb(acc + [rest[0]], rest[1..])
  }

  function Merged(rs: seq<Range>): seq<Range> {
    if rs == [] then []
    else
      var sorted := Sort(rs, StartsFirst);
      SortKeeps(rs, StartsFirst);
      Absorb([sorted[0]], sorted[1..])
  }

  // ----- sorting orders the ranges

  lemma SortOrdered(rs: seq<Range>)
    ensures ByStart(Sort(rs, StartsFirst))
  {
    SortSorted(rs, StartsFirst);
  }

  lemma SameMembersSameCover(a: seq<Range>, b: seq<Range>)
    requires multiset(a) == multiset(b)
    ensures forall x :: Covers(a, x) <==> Covers(b, x)
    ensures NonEmpty(a) <==> NonEmpty(b)
  {
    assert forall r :: r in a <==> r in multiset(a);
    assert forall r :: r in b <==> r in multiset(b);
    assert forall i :: 0 <= i < |a| ==> a[i] in b;
    assert forall i :: 0 <= i < |b| ==> b[i] in a;
  }

  // ----- merging keeps the cover

  lemma CoversConcat(a: seq<Range>, b: seq<Range>, x: nat)
    ensures Covers(a + b, x) <==> Covers(a, x) || Covers(b, x)
  {
    if Covers(a, x) {
      var i :| 0 <= i < |a| && a[i].start <= x < a[i].end;
      assert (a + b)[i] == a[i];
    }
    if Covers(b, x) {
      var i :| 0 <= i < |b| && b[i].start <= x < b[i].end;
      assert (a + b)[|a| + i] == b[i];
    }
  }

  lemma CoversOne(r: Range, x: nat)
    ensures Covers([r], x) <==> r.start <= x < r.end
  {
    assert [r][0] == r;
  }

  /** The ranges are ordered by start and none starts before `last`. */
  predicate Follow(last: Range, rest: seq<Range>) {
    ByStart(rest) && forall j :: 0 <= j < |rest| ==> last.start <= rest[j].start
  }

  lemma JoinedCover(last: Range, r: Range, x: nat)
    requires last.start <= r.start <= last.end
    ensures Covers([last.(end := Max(last.end, r.end))], x) <==> Covers([last], x) || Covers([r], x)
  {
    CoversOne(last, x);
    CoversOne(r, x);
    CoversOne(last.(end := Max(last.end, r.end)), x);
  }

  lemma CoversNone(x: nat)
    ensures !Covers([], x)
  {
  }

  lemma {:induction false} AbsorbCover(acc: seq<Range>, rest: seq<Range>, x: nat)
    requires acc != [] && Follow(acc[|acc| - 1], rest)
    ensures Covers(Absorb(acc, rest), x) <==> Covers(acc, x) || Covers(rest, x)
    decreases |rest|
  {
    hide Covers;
    CoversNone(x);
    if rest != [] {
      var init, last, r := acc[..|acc| - 1], acc[|acc| - 1], rest[0];
      assert acc == init + [last] && rest == [r] + rest[1..];
      CoversConcat([r], rest[1..], x);
      if r.start <= last.end {
        var last' := last.(end := Max(last.end, r.end));
        var acc' := acc[|acc| - 1 := last'];
        assert acc' == init + [last'];
        CoversConcat(init, [last], x);
        CoversConcat(init, [last'], x);
        JoinedCover(last, r, x);
        AbsorbCover(acc', rest[1..], x);
      } else {
        CoversConcat(acc, [r], x);
        AbsorbCover(acc + [r], rest[1..], x);
      }
    }
  }

  lemma {:induction false} AbsorbCanonical(acc: seq<Range>, rest: seq<Range>)
    requires acc != [] && Canonical(acc) && NonEmpty(rest) && Follow(acc[|acc| - 1], rest)
    ensures Canonical(Absorb(acc, rest))
    decreases |rest|
  {
    if rest != [] {
      var last, r := acc[|acc| - 1], rest[0];
      if r.start <= last.end {
        AbsorbCanonical(acc[|acc| - 1 := last.(end := Max(last.end, r.end))], rest[1..]);
      } else {
        AbsorbCanonical(acc + [r], rest[1..]);
      }
    }
  }

  /** Merging covers exactly the positions that the ranges cover. */
  lemma MergedCover(rs: seq<Range>)
    ensures forall x :: Covers(Merged(rs), x) <==> Covers(rs, x)
    ensures NonEmpty(rs) ==> Canonical(Merged(rs))
  {
    hide Absorb, Sort, Covers, NonEmpty, Gaps;
    if rs == [] {
      NothingMerged();
    } else {
      var sorted := Sort(rs, StartsFirst);
      SortKeeps(rs, StartsFirst);
      SortMembers(rs, StartsFirst);
      SortOrdered(rs);
      SameMembersSameCover(sorted, rs);
      var first, rest := sorted[0], sorted[1..];
      assert sorted == [first] + rest;
      forall x: nat
        ensures Covers(Merged(rs), x) <==> Covers(rs, x)
      {
        AbsorbCover([first], rest, x);
        CoversConcat([first], rest, x);
      }
      if NonEmpty(rs) {
        OneIsCanonical(sorted);
        AbsorbCanonical([first], rest);
      }
    }
  }

  lemma NothingMerged()
    ensures Merged([]) == [] && Canonical([])
  {
  }

  lemma OneIsCanonical(rs: seq<Range>)
    requires rs != [] && NonEmpty(rs)
    ensures Canonical([rs[0]]) && NonEmpty(rs[1..])
  {
  }

  // ----- the canonical form is unique

  lemma FirstRange(a: seq<Range>, b: seq<Range>)
    requires Canonical(a) && Canonical(b) && a != []
    requires forall x :: Covers(a, x) <==> Covers(b, x)
    ensures b != [] && b[0].start <= a[0].start && (b[0].start == a[0].start ==> b[0].end <= a[0].end)
  {
    assert Covers(a, a[0].start);
    var i :| 0 <= i < |b| && b[i].start <= a[0].start < b[i].end;
    assert b[0].start <= b[i].start by {
      if i > 0 {
        assert b[0].start < b[0].end < b[i].start;
      }
    }
    if b[0].start == a[0].start && b[0].end > a[0].end {
      var x := a[0].end;
      assert Covers(b, x);
    }
  }

  lemma TailCover(a: seq<Range>, x: nat)
    requires Canonical(a) && a != []
    ensures Covers(a[1..], x) <==> Covers(a, x) && a[0].end <= x
  {
    assert a == [a[0]] + a[1..];
    CoversConcat([a[0]], a[1..], x);
    CoversOne(a[0], x);
    if Covers(a[1..], x) {
      var i :| 0 <= i < |a[1..]| && a[1..][i].start <= x < a[1..][i].end;
      assert a[0].end < a[i + 1].start;
    }
  }

  lemma {:induction false} CanonicalUnique(a: seq<Range>, b: seq<Range>)
    requires Canonical(a) && Canonical(b)
    requires forall x :: Covers(a, x) <==> Covers(b, x)
    ensures a == b
    decreases |a|
  {
    if a == [] {
      if b != [] {
        FirstRange(b, a);
      }
    } else {
      FirstRange(a, b);
      FirstRange(b, a);
      assert a[0] == b[0];
      forall x: nat
        ensures Covers(a[1..], x) <==> Covers(b[1..], x)
      {
        TailCover(a, x);
        TailCover(b, x);
      }
      CanonicalUnique(a[1..], b[1..]);
      assert a == [a[0]] + a[1..] && b == [b[0]] + b[1..];
    }
  }

  /** Two lists of non-empty ranges merge to the same list iff they cover the same positions. */
  lemma MergedIsCanonicalForm(a: seq<Range>, b: seq<Range>)
    requires NonEmpty(a) && NonEmpty(b)
    ensures Merged(a) == Merged(b) <==> forall x :: Covers(a, x) <==> Covers(b, x)
  {
    MergedCover(a);
    MergedCover(b);
    if forall x :: Covers(a, x) <==> Covers(b, x) {
      CanonicalUnique(Merged(a), Merged(b));
    }
  }

  lemma MergedIdempotent(a: seq<Range>)
    requires NonEmpty(a)
    ensures Merged(Merged(a)) == Merged(a)
  {
    MergedCover(a);
    MergedIsCanonicalForm(Merged(a), a);
  }

  // ----- the merge in place

  /** The mutable range of the highlighter. */
  class HighlightRange {
    var start: nat
    var end: nat

    constructor (start: nat, end: nat)
      ensures this.start == start && this.end == end
    {
      this.start := start;
      this.end := end;
    }

    function Value(): Range
      reads this
    {
      Range(start, end)
    }
  }

  function Values(rs: seq<HighlightRange>): (vs: seq<Range>)
    reads rs
    ensures |vs| == |rs| && forall i :: 0 <= i < |rs| ==> vs[i] == rs[i].Value()
  {
    if rs == [] then [] else [rs[0].Value()] + Values(rs[1..])
  }

  lemma Snoc(ranges: seq<HighlightRange>, i: nat)
    requires i < |ranges|
    ensures ranges[..i + 1] == ranges[..i] + [ranges[i]]
    ensures Values(ranges[..i + 1]) == Values(ranges[..i]) + [ranges[i].Value()]
  {
    hide Values;
    assert ranges[..i + 1] == ranges[..i] + [ranges[i]];
  }

  /** The sorted copy holds the same objects. */
  method SortByStart(ranges: seq<HighlightRange>) returns (sorted: seq<HighlightRange>)
    ensures Values(sorted) == Sort(Values(ranges), StartsFirst)
    ensures forall x :: x in sorted <==> x in ranges
  {
    hide Values, Insert;
    sorted := [];
    assert Values([]) == [];
    for i := 0 to |ranges|
      invariant Values(sorted) == Sort(Values(ranges[..i]), StartsFirst)
      invariant forall x :: x in sorted <==> x in ranges[..i]
    {
      Snoc(ranges, i);
      SortSnoc(Values(ranges[..i]), ranges[i].Value(), StartsFirst);
      sorted := InsertRange(ranges[i], sorted);
    }
    assert ranges[..|ranges|] == ranges;
  }

  lemma InsertHere(r: Range, vs: seq<Range>)
    requires vs == [] || r.start < vs[0].start
    ensures Insert(r, vs, StartsFirst) == [r] + vs
  {
  }

  lemma InsertLater(r: Range, h: Range, vs: seq<Range>)
    requires h.start <= r.start
    ensures Insert(r, [h] + vs, StartsFirst) == [h] + Insert(r, vs, StartsFirst)
  {
    assert ([h] + vs)[1..] == vs;
  }

  /** Walking past ranges that start no later leaves the rest of the insertion to do. */
  lemma {:induction false} InsertAfter(r: Range, front: seq<Range>, back: seq<Range>)
    requires forall i :: 0 <= i < |front| ==> front[i].start <= r.start
    requires back == [] || r.start < back[0].start
    ensures Insert(r, front + back, StartsFirst) == front + [r] + back
  {
    hide Insert;
    if front == [] {
      assert front + back == back && front + [r] == [r];
      InsertHere(r, back);
    } else {
      var h, t := front[0], front[1..];
      InsertAfter(r, t, back);
      InsertLater(r, h, t + back);
      assert front + back == [h] + (t + back);
      assert front + [r] + back == [h] + (t + [r] + back);
    }
  }

  lemma ValuesConcat(a: seq<HighlightRange>, b: seq<HighlightRange>)
    ensures Values(a + b) == Values(a) + Values(b)
  {
    hide Values;
  }

  lemma ValuesCut(rs: seq<HighlightRange>, k: nat)
    requires k <= |rs|
    ensures Values(rs[..k]) == Values(rs)[..k] && Values(rs[k..]) == Values(rs)[k..]
  {
    hide Values;
  }

  lemma ValuesOne(r: HighlightRange)
    ensures Values([r]) == [r.Value()]
  {
  }

  lemma SplicedValues(rs: seq<HighlightRange>, r: HighlightRange, k: nat)
    requires k <= |rs|
    ensures Values(rs[..k] + [r] + rs[k..]) == Values(rs)[..k] + [r.Value()] + Values(rs)[k..]
  {
    hide Values;
    ValuesConcat(rs[..k] + [r], rs[k..]);
    ValuesConcat(rs[..k], [r]);
    ValuesOne(r);
    ValuesCut(rs, k);
  }

  lemma SplicedMembers(rs: seq<HighlightRange>, r: HighlightRange, k: nat)
    requires k <= |rs|
    ensures forall x :: x in rs[..k] + [r] + rs[k..] <==> x in rs || x == r
  {
    assert rs == rs[..k] + rs[k..];
    assert forall x :: x in rs <==> x in rs[..k] || x in rs[k..];
  }

  method InsertRange(r: HighlightRange, rs: seq<HighlightRange>) returns (s: seq<HighlightRange>)
    ensures Values(s) == Insert(r.Value(), Values(rs), StartsFirst)
    ensures forall x :: x in s <==> x in rs || x == r
  {
    hide Values, Insert;
    var k := 0;
    while k < |rs| && r.start >= rs[k].start
      invariant 0 <= k <= |rs|
      invariant forall i :: 0 <= i < k ==> rs[i].start <= r.start
    {
      k := k + 1;
    }
    s := rs[..k] + [r] + rs[k..];
    ghost var vs := Values(rs);
    assert vs == vs[..k] + vs[k..];
    InsertAfter(r.Value(), vs[..k], vs[k..]);
    SplicedValues(rs, r, k);
    SplicedMembers(rs, r, k);
  }

  lemma AbsorbNext(acc: seq<Range>, all: seq<Range>, i: nat)
    requires acc != [] && i < |all|
    ensures var last := acc[|acc| - 1];
            Absorb(acc, all[i..]) ==
            if all[i].start <= last.end then
              Absorb(acc[|acc| - 1 := last.(end := Max(last.end, all[i].end))], all[i + 1..])
            else Absorb(acc + [all[i]], all[i + 1..])
  {
    assert all[i..][1..] == all[i + 1..];
  }

  /**
   What is still to be merged: as it was, except that the last merged object may come up again,
   with an end that has grown since.
   */
  ghost predicate Pending(sorted: seq<HighlightRange>, all: seq<Range>, i: nat, last: HighlightRange)
    requires |all| == |sorted|
    reads sorted, last
  {
    forall k :: i <= k < |sorted| ==>
      && last.start <= all[k].start
      && (sorted[k].Value() == all[k]
          || (sorted[k] == last && last.start <= last.end && all[k].start == last.start && all[k].end <= last.end))
  }

  /** The ranges before the last one ended before it starts. */
  ghost predicate Closed(merged: seq<HighlightRange>)
    requires merged != []
    reads merged
  {
    forall k :: 0 <= k < |merged| - 1 ==> merged[k].end < merged[|merged| - 1].start
  }

  /** Joining the next range to the last one, which may be the same object. */
  method Join(merged: seq<HighlightRange>, sorted: seq<HighlightRange>, ghost all: seq<Range>, i: nat)
    requires merged != [] && i < |sorted| == |all| && ByStart(all)
    requires Pending(sorted, all, i, merged[|merged| - 1]) && Closed(merged)
    requires sorted[i].start <= merged[|merged| - 1].end
    modifies merged[|merged| - 1]
    ensures Pending(sorted, all, i + 1, merged[|merged| - 1]) && Closed(merged)
    ensures var last := old(merged[|merged| - 1].Value());
            Values(merged) == old(Values(merged))[|merged| - 1 := last.(end := Max(last.end, all[i].end))]
  {
    hide Values;
    var last := merged[|merged| - 1];
    assert forall k :: 0 <= k < |merged| - 1 ==> merged[k] != last;
    last.end := Max(last.end, sorted[i].end);
  }

  /** One turn of the loop. */
  method MergeNext(merged: seq<HighlightRange>, sorted: seq<HighlightRange>, ghost all: seq<Range>, i: nat)
    returns (next: seq<HighlightRange>)
    requires merged != [] && i < |sorted| == |all| && ByStart(all)
    requires Pending(sorted, all, i, merged[|merged| - 1]) && Closed(merged)
    requires forall k :: 0 <= k < |merged| ==> merged[k] in sorted
    modifies merged[|merged| - 1]
    ensures next != [] && Pending(sorted, all, i + 1, next[|next| - 1]) && Closed(next)
    ensures forall k :: 0 <= k < |next| ==> next[k] in sorted
    ensures Absorb(Values(next), all[i + 1..]) == old(Absorb(Values(merged), all[i..]))
  {
    hide Values, Absorb, Closed, ByStart;
    AbsorbNext(Values(merged), all, i);
    if sorted[i].start <= merged[|merged| - 1].end {
      assert sorted[i].start == all[i].start;
      Join(merged, sorted, all, i);
      next := merged;
    } else {
      PushNext(merged, sorted, all, i);
      next := merged + [sorted[i]];
    }
  }

  /** The result shares its objects with the argument, and the ends of these are overwritten. */
  method MergeRanges(ranges: seq<HighlightRange>) returns (merged: seq<HighlightRange>)
    modifies ranges
    ensures Values(merged) == Merged(old(Values(ranges)))
    ensures forall x :: x in merged ==> x in ranges
  {
    hide Values, Sort, Absorb;
    if ranges == [] {
      merged := [];
      assert Values(merged) == [];
      return;
    }
    var sorted := SortByStart(ranges);
    ghost var all := Values(sorted);
    SortKeeps(Values(ranges), StartsFirst);
    SortOrdered(Values(ranges));
    merged := [sorted[0]];
    assert Values(merged) == [all[0]];
    StartMerging(sorted, all);
    hide Pending, Closed, ByStart;
    for i := 1 to |sorted|
      invariant merged != [] && Closed(merged)
      invariant forall k :: 0 <= k < |merged| ==> merged[k] in sorted
      invariant Pending(sorted, all, i, merged[|merged| - 1])
      invariant Absorb(Values(merged), all[i..]) == Absorb([all[0]], all[1..])
    {
      assert merged[|merged| - 1] in ranges;
      merged := MergeNext(merged, sorted, all, i);
    }
    AbsorbAll(Values(merged), all);
  }

  lemma StartMerging(sorted: seq<HighlightRange>, all: seq<Range>)
    requires sorted != [] && |all| == |sorted| && ByStart(all)
    requires forall k :: 0 <= k < |sorted| ==> sorted[k].Value() == all[k]
    ensures Pending(sorted, all, 1, sorted[0]) && Closed([sorted[0]])
  {
  }

  /** A range that starts after the last one shows that nothing pending has been touched. */
  lemma Untouched(sorted: seq<HighlightRange>, all: seq<Range>, i: nat, last: HighlightRange, k: nat)
    requires i <= k < |sorted| == |all| && ByStart(all) && Pending(sorted, all, i, last)
    requires sorted[i].start > last.end
    ensures sorted[k].Value() == all[k] && all[i].start > last.end && all[i].start <= all[k].start
  {
    assert i == k || all[i].start <= all[k].start;
    assert last.start <= all[k].start;
  }

  lemma PushClosed(merged: seq<HighlightRange>, r: HighlightRange)
    requires merged != [] && Closed(merged)
    requires merged[|merged| - 1].end < r.start && merged[|merged| - 1].start <= r.start
    ensures Closed(merged + [r])
  {
    var last := merged[|merged| - 1];
    forall k | 0 <= k < |merged|
      ensures merged[k].end < r.start
    {
      assert k == |merged| - 1 || merged[k].end < last.start;
    }
  }

  lemma PushNext(merged: seq<HighlightRange>, sorted: seq<HighlightRange>, all: seq<Range>, i: nat)
    requires merged != [] && i < |sorted| == |all| && ByStart(all)
    requires Pending(sorted, all, i, merged[|merged| - 1]) && Closed(merged)
    requires sorted[i].start > merged[|merged| - 1].end
    ensures Pending(sorted, all, i + 1, sorted[i]) && Closed(merged + [sorted[i]])
    ensures Values(merged + [sorted[i]]) == Values(merged) + [all[i]] && all[i].start > merged[|merged| - 1].end
  {
    var last := merged[|merged| - 1];
    assert last.start <= all[i].start;
    hide Values, Closed, ByStart;
    forall k: nat | i <= k < |sorted|
      ensures sorted[k].Value() == all[k] && all[i].start > last.end && all[i].start <= all[k].start
    {
      Untouched(sorted, all, i, last, k);
    }
    PushClosed(merged, sorted[i]);
    ValuesConcat(merged, [sorted[i]]);
    ValuesOne(sorted[i]);
  }

  lemma AbsorbAll(acc: seq<Range>, all: seq<Range>)
    requires acc != []
    ensures Absorb(acc, all[|all|..]) == acc
  {
  }
}
