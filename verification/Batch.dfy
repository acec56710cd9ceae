/**
 Parallel batch operations: deduplication behind a mutex, over every order in which the
 critical sections can run, and verification by fold and reduce, over every way to split it.
 */
module Batch {
  import opened Prelude

  // ----- deduplication

  /** Every position runs its critical section exactly once. */
  ghost predicate IsSchedule(order: seq<nat>, n: nat) {
    && |order| == n
    && Distinct(order)
    && (forall k :: 0 <= k < |order| ==> order[k] < n)
    && (forall i :: 0 <= i < n ==> i in order)
  }

  /** The shared set and the answers given so far. */
  datatype Shared = Shared(seen: set<string>, kept: set<nat>)

  /** One critical section: insert the text of the CID, and keep the block if it was new. */
  function Section(s: Shared, texts: seq<string>, i: nat): Shared
    requires i < |texts|
  {
    if texts[i] in s.seen then s else Shared(s.seen + {texts[i]}, s.kept + {i})
  }

  function RunSections(texts: seq<string>, order: seq<nat>): Shared
    requires forall k :: 0 <= k < |order| ==> order[k] < |texts|
  {
    if order == [] then Shared({}, {})
    else Section(RunSections(texts, order[..|order| - 1]), texts, order[|order| - 1])
  }

  /** `filter_map` collects the kept blocks in input order. */
  function Collect<T>(cids: seq<T>, kept: set<nat>, from: nat): seq<T>
    requires from <= |cids|
    decreases |cids| - from
  {
    if from == |cids| then []
    else (if from in kept then [cids[from]] else []) + Collect(cids, kept, from + 1)
  }

  function Texts<T>(cids: seq<T>, text: T -> string): (r: seq<string>)
    ensures |r| == |cids| && forall i :: 0 <= i < |cids| ==> r[i] == text(cids[i])
  {
    seq(|cids|, i requires 0 <= i < |cids| => text(cids[i]))
  }

  function UniqueCids<T>(cids: seq<T>, text: T -> string, order: seq<nat>): seq<T>
    requires forall k :: 0 <= k < |order| ==> order[k] < |cids|
  {
    Collect(cids, RunSections(Texts(cids, text), order).kept, 0)
  }

  ghost predicate SeenIn(texts: seq<string>, order: seq<nat>, t: string)
    requires forall k :: 0 <= k < |order| ==> order[k] < |texts|
  {
    exists k :: 0 <= k < |order| && texts[order[k]] == t
  }

  lemma SeenInSnoc(texts: seq<string>, order: seq<nat>, i: nat, t: string)
    requires i < |texts| && forall k :: 0 <= k < |order| ==> order[k] < |texts|
    ensures SeenIn(texts, order + [i], t) <==> SeenIn(texts, order, t) || texts[i] == t
  {
    if SeenIn(texts, order, t) {
      var k :| 0 <= k < |order| && texts[order[k]] == t;
      assert (order + [i])[k] == order[k];
    }
    assert (order + [i])[|order|] == i;
  }

  /**
   After any number of sections: the set holds the texts of the sections that have run, and
   exactly one of the positions with a given text has been kept.
   */
  lemma {:induction false} SectionsInvariant(texts: seq<string>, order: seq<nat>)
    requires forall k :: 0 <= k < |order| ==> order[k] < |texts|
    ensures var s := RunSections(texts, order);
            && (forall t :: t in s.seen <==> SeenIn(texts, order, t))
            && (forall i :: i in s.kept ==> i < |texts| && texts[i] in s.seen)
            && (forall t :: t in s.seen ==> exists i :: i in s.kept && texts[i] == t)
            && (forall i, j :: i in s.kept && j in s.kept && texts[i] == texts[j] ==> i == j)
  {
    if order == [] {
      assert forall t :: !SeenIn(texts, order, t);
    } else {
      hide SeenIn;
      var before, i := order[..|order| - 1], order[|order| - 1];
      SectionsInvariant(texts, before);
      assert order == before + [i];
      forall t {
        SeenInSnoc(texts, before, i, t);
      }
    }
  }

  /** The position ran its section before every other position with the same text. */
  ghost predicate RanFirst(texts: seq<string>, order: seq<nat>, i: nat)
    requires forall k :: 0 <= k < |order| ==> order[k] < |texts|
  {
    exists k :: 0 <= k < |order| && order[k] == i && forall j :: 0 <= j < k ==> texts[order[j]] != texts[order[k]]
  }

  /** Kept is exactly the position whose section ran first among those with its text. */
  lemma {:induction false} KeptRanFirst(texts: seq<string>, order: seq<nat>, i: nat)
    requires forall k :: 0 <= k < |order| ==> order[k] < |texts|
    ensures i in RunSections(texts, order).kept <==> RanFirst(texts, order, i)
  {
    if order != [] {
      var n := |order| - 1;
      var before := order[..n];
      KeptRanFirst(texts, before, i);
      SectionsInvariant(texts, before);
      RanFirstSnoc(texts, before, order[n], i);
      assert order == before + [order[n]];
    }
  }

  lemma RanFirstSnoc(texts: seq<string>, before: seq<nat>, last: nat, i: nat)
    requires last < |texts| && forall k :: 0 <= k < |before| ==> before[k] < |texts|
    ensures RanFirst(texts, before + [last], i) <==>
            RanFirst(texts, before, i) || (i == last && !SeenIn(texts, before, texts[last]))
  {
    var order := before + [last];
    assert forall k :: 0 <= k < |before| ==> order[k] == before[k];
    if RanFirst(texts, before, i) {
      var k :| 0 <= k < |before| && before[k] == i && forall j :: 0 <= j < k ==> texts[before[j]] != texts[before[k]];
      assert order[k] == i;
    }
    if i == last && !SeenIn(texts, before, texts[last]) {
      assert order[|before|] == i;
    }
    if RanFirst(texts, order, i) {
      var k :| 0 <= k < |order| && order[k] == i && forall j :: 0 <= j < k ==> texts[order[j]] != texts[order[k]];
      if k < |before| {
        assert before[k] == i;
      }
    }
  }

  /** Positions that a collection picks, in increasing order. */
  ghost predicate Picks<T>(cids: seq<T>, result: seq<T>, at: seq<nat>, kept: set<nat>, from: nat) {
    && |at| == |result|
    && (forall k :: 0 <= k < |at| ==> from <= at[k] < |cids| && at[k] in kept && cids[at[k]] == result[k])
    && (forall k, l :: 0 <= k < l < |at| ==> at[k] < at[l])
    && (forall i :: i in kept && from <= i < |cids| ==> i in at)
  }

  lemma PicksOneMore<T>(cids: seq<T>, result: seq<T>, at: seq<nat>, kept: set<nat>, from: nat)
    requires from < |cids| && from in kept && Picks(cids, result, at, kept, from + 1)
    ensures Picks(cids, [cids[from]] + result, [from] + at, kept, from)
  {
    assert forall i :: i in [from] + at <==> i == from || i in at;
  }

  lemma PicksNoMore<T>(cids: seq<T>, result: seq<T>, at: seq<nat>, kept: set<nat>, from: nat)
    requires from < |cids| && from !in kept && Picks(cids, result, at, kept, from + 1)
    ensures Picks(cids, result, at, kept, from)
  {
  }

  lemma {:induction false} CollectPicks<T>(cids: seq<T>, kept: set<nat>, from: nat) returns (at: seq<nat>)
    requires from <= |cids|
    ensures Picks(cids, Collect(cids, kept, from), at, kept, from)
    decreases |cids| - from
  {
    if from == |cids| {
      at := [];
    } else {
      at := CollectPicks(cids, kept, from + 1);
      var rest := Collect(cids, kept, from + 1);
      hide Picks;
      if from in kept {
        PicksOneMore(cids, rest, at, kept, from);
        at := [from] + at;
      } else {
        PicksNoMore(cids, rest, at, kept, from);
        assert [] + rest == rest;
      }
    }
  }

  /** The texts identify the CIDs. */
  ghost predicate Injective<T(!new)>(text: T -> string) { forall x, y :: text(x) == text(y) ==> x == y }

  /**
   Under every schedule the result is a selection of input positions in input order, in which
   each CID of the input appears exactly once.
   */
  lemma UniqueUnderEverySchedule<T(!new)>(cids: seq<T>, text: T -> string, order: seq<nat>) returns (at: seq<nat>)
    requires IsSchedule(order, |cids|) && Injective(text)
    ensures var r := UniqueCids(cids, text, order);
            && |at| == |r| && (forall k :: 0 <= k < |r| ==> at[k] < |cids| && cids[at[k]] == r[k])
            && (forall k, l :: 0 <= k < l < |at| ==> at[k] < at[l])
            && Distinct(r) && (forall c :: c in r <==> c in cids)
  {
    hide Collect, RunSections, Texts;
    var texts := Texts(cids, text);
    var s := RunSections(texts, order);
    SectionsInvariant(texts, order);
    at := CollectPicks(cids, s.kept, 0);
    var r := UniqueCids(cids, text, order);
    forall k, l | 0 <= k < l < |r|
      ensures r[k] != r[l]
    {
      assert at[k] != at[l] && texts[at[k]] != texts[at[l]];
    }
    forall c | c in cids
      ensures c in r
    {
      AppearsInResult(cids, text, order, at, c);
    }
  }

  lemma AppearsInResult<T(!new)>(cids: seq<T>, text: T -> string, order: seq<nat>, at: seq<nat>, c: T)
    requires IsSchedule(order, |cids|) && Injective(text) && c in cids
    requires Picks(cids, UniqueCids(cids, text, order), at, RunSections(Texts(cids, text), order).kept, 0)
    ensures c in UniqueCids(cids, text, order)
  {
    hide Collect, RunSections, Texts, UniqueCids;
    var texts := Texts(cids, text);
    var s := RunSections(texts, order);
    SectionsInvariant(texts, order);
    var i :| 0 <= i < |cids| && cids[i] == c;
    assert i in order;
    var k :| 0 <= k < |order| && order[k] == i;
    assert texts[order[k]] == text(c);
    assert SeenIn(texts, order, text(c));
    var j :| j in s.kept && texts[j] == text(c);
    assert cids[j] == c;
    assert j in at;
    var m :| 0 <= m < |at| && at[m] == j;
    assert UniqueCids(cids, text, order)[m] == c;
  }

  /** All schedules report the same CIDs, and equally many. */
  lemma SchedulesAgree<T(!new)>(cids: seq<T>, text: T -> string, order: seq<nat>, order': seq<nat>)
    requires IsSchedule(order, |cids|) && IsSchedule(order', |cids|) && Injective(text)
    ensures Elements(UniqueCids(cids, text, order)) == Elements(UniqueCids(cids, text, order'))
    ensures |UniqueCids(cids, text, order)| == |UniqueCids(cids, text, order')|
  {
    hide UniqueCids;
    var _ := UniqueUnderEverySchedule(cids, text, order);
    var _ := UniqueUnderEverySchedule(cids, text, order');
    var r, r' := UniqueCids(cids, text, order), UniqueCids(cids, text, order');
    assert forall c :: c in r <==> c in r';
    SizeOfDistinct(r);
    SizeOfDistinct(r');
  }

  lemma {:induction false} SizeOfDistinct<T>(s: seq<T>)
    requires Distinct(s)
    ensures |Elements(s)| == |s|
  {
    if s != [] {
      SizeOfDistinct(s[1..]);
      assert s == [s[0]] + s[1..];
      assert Elements(s) == {s[0]} + Elements(s[1..]);
    }
  }

  // ----- when the order of the result is fixed by the input

  /** Equal CIDs stand together. */
  predicate Grouped<T(==)>(cids: seq<T>) {
    forall i, j, k :: 0 <= i < j < k < |cids| && cids[i] == cids[k] ==> cids[j] == cids[i]
  }

  function FirstAt<T(==)>(cids: seq<T>, c: T): (r: nat)
    requires c in cids
    ensures r < |cids| && cids[r] == c && c !in cids[..r]
  {
    if cids[0] == c then 0
    else
      assert cids == [cids[0]] + cids[1..];
      var r := 1 + FirstAt(cids[1..], c);
      assert cids[..r] == [cids[0]] + cids[1..][..r - 1];
      r
  }

  /** The elements of `r` appear in the order in which they first appear in `cids`. */
  ghost predicate ByFirst<T>(cids: seq<T>, r: seq<T>) {
    && (forall k :: 0 <= k < |r| ==> r[k] in cids)
    && (forall k, l :: 0 <= k < l < |r| ==> FirstAt(cids, r[k]) < FirstAt(cids, r[l]))
  }

  /** The same elements in that order are the same sequence. */
  lemma {:induction false} ByFirstUnique<T>(cids: seq<T>, r: seq<T>, r': seq<T>)
    requires ByFirst(cids, r) && ByFirst(cids, r') && forall c :: c in r <==> c in r'
    ensures r == r'
    decreases |r|
  {
    hide FirstAt;
    if r == [] {
      EmptyAlike(r, r');
    } else {
      assert r[0] in r';
      var j :| 0 <= j < |r'| && r'[j] == r[0];
      assert r'[0] in r;
      var i :| 0 <= i < |r| && r[i] == r'[0];
      HeadsAgree(cids, r, r', i, j);
      TailsAgree(cids, r, r');
      ByFirstUnique(cids, r[1..], r'[1..]);
      assert r == [r[0]] + r[1..] && r' == [r'[0]] + r'[1..];
    }
  }

  lemma EmptyAlike<T>(r: seq<T>, r': seq<T>)
    requires r == [] && forall c :: c in r <==> c in r'
    ensures r' == []
  {
    if r' != [] {
      SomeElement(r');
      assert false;
    }
  }

  lemma SomeElement<T>(r: seq<T>)
    requires r != []
    ensures exists c :: c in r
  {
    assert r[0] in r;
  }

  lemma HeadsAgree<T>(cids: seq<T>, r: seq<T>, r': seq<T>, i: nat, j: nat)
    requires ByFirst(cids, r) && ByFirst(cids, r') && i < |r| && j < |r'|
    requires r'[j] == r[0] && r[i] == r'[0]
    ensures r[0] == r'[0]
  {
    hide FirstAt;
    assert i == 0 || FirstAt(cids, r[0]) < FirstAt(cids, r[i]);
    assert j == 0 || FirstAt(cids, r'[0]) < FirstAt(cids, r'[j]);
  }

  lemma TailsAgree<T>(cids: seq<T>, r: seq<T>, r': seq<T>)
    requires r != [] && r' != [] && r[0] == r'[0]
    requires ByFirst(cids, r) && ByFirst(cids, r') && forall c :: c in r <==> c in r'
    ensures ByFirst(cids, r[1..]) && ByFirst(cids, r'[1..]) && forall c :: c in r[1..] <==> c in r'[1..]
  {
    hide FirstAt;
    HeadNotInTail(cids, r);
    HeadNotInTail(cids, r');
    assert r == [r[0]] + r[1..] && r' == [r'[0]] + r'[1..];
    assert forall c :: c in r <==> c == r[0] || c in r[1..];
    assert forall c :: c in r' <==> c == r'[0] || c in r'[1..];
  }

  lemma HeadNotInTail<T>(cids: seq<T>, r: seq<T>)
    requires r != [] && ByFirst(cids, r)
    ensures r[0] !in r[1..]
  {
    hide FirstAt;
    forall k | 0 <= k < |r[1..]|
      ensures r[1..][k] != r[0]
    {
      assert FirstAt(cids, r[0]) < FirstAt(cids, r[k + 1]);
    }
  }

  /** Where equal CIDs stand together, a selection in input order is in order of first appearance. */
  lemma SelectionByFirst<T>(cids: seq<T>, r: seq<T>, at: seq<nat>)
    requires Grouped(cids) && Distinct(r) && |at| == |r|
    requires forall k :: 0 <= k < |r| ==> at[k] < |cids| && cids[at[k]] == r[k]
    requires forall k, l :: 0 <= k < l < |at| ==> at[k] < at[l]
    ensures ByFirst(cids, r)
  {
    forall k, l | 0 <= k < l < |r|
      ensures FirstAt(cids, r[k]) < FirstAt(cids, r[l])
    {
      GroupedOrder(cids, at[k], at[l]);
    }
  }

  lemma GroupedOrder<T>(cids: seq<T>, p: nat, q: nat)
    requires Grouped(cids) && p < q < |cids| && cids[p] != cids[q]
    ensures FirstAt(cids, cids[p]) < FirstAt(cids, cids[q])
  {
    var fp, fq := FirstAt(cids, cids[p]), FirstAt(cids, cids[q]);
    FirstIsLeast(cids, p);
    FirstIsLeast(cids, q);
    SameStretch(cids, fq, p, q);
  }

  lemma SameStretch<T>(cids: seq<T>, f: nat, p: nat, q: nat)
    requires Grouped(cids) && p < q < |cids| && f <= q && cids[f] == cids[q]
    ensures f < p ==> cids[p] == cids[q]
  {
  }

  lemma FirstIsLeast<T>(cids: seq<T>, p: nat)
    requires p < |cids|
    ensures FirstAt(cids, cids[p]) <= p
  {
    NotBefore(cids, p, FirstAt(cids, cids[p]));
  }

  lemma NotBefore<T>(cids: seq<T>, p: nat, f: nat)
    requires p < |cids| && f <= |cids| && cids[p] !in cids[..f]
    ensures f <= p
  {
    var front := cids[..f];
    assert forall k :: 0 <= k < f ==> front[k] == cids[k] && front[k] in front;
  }

  /** The positions below `n` other than two given ones. */
  function Others(n: nat, a: nat, b: nat): (r: seq<nat>)
    ensures Distinct(r) && forall i: nat :: i in r <==> i < n && i != a && i != b
  {
    if n == 0 then []
    else if n - 1 == a || n - 1 == b then Others(n - 1, a, b)
    else
      assert n - 1 !in Others(n - 1, a, b);
      Others(n - 1, a, b) + [n - 1]
  }

  /** Every pair of positions can come first. */
  lemma StartWith(n: nat, a: nat, b: nat)
    requires a < n && b < n && a != b
    ensures IsSchedule([a, b] + Others(n, a, b), n)
  {
    var order := [a, b] + Others(n, a, b);
    assert forall i: nat :: i in order <==> i == a || i == b || i in Others(n, a, b);
    assert forall k :: 0 <= k < |order| ==> order[k] in order;
    PairDistinct(a, b, Others(n, a, b));
    DistinctSize(order, n);
  }

  lemma PairDistinct(a: nat, b: nat, rest: seq<nat>)
    requires a != b && a !in rest && b !in rest && Distinct(rest)
    ensures Distinct([a, b] + rest)
  {
    var order := [a, b] + rest;
    assert forall k :: 2 <= k < |order| ==> order[k] == rest[k - 2] && order[k] in rest;
  }

  lemma {:induction false} DistinctSize(order: seq<nat>, n: nat)
    requires Distinct(order) && forall i: nat :: i in order <==> i < n
    ensures |order| == n
  {
    SizeOfDistinct(order);
    SizeBelow(n);
    assert Elements(order) == Below(n);
  }

  function Below(n: nat): (r: set<nat>)
    ensures forall i: nat :: i in r <==> i < n
  {
    if n == 0 then {} else Below(n - 1) + {n - 1}
  }

  lemma {:induction false} SizeBelow(n: nat)
    ensures |Below(n)| == n
  {
    if n != 0 {
      SizeBelow(n - 1);
    }
  }

  /** What has been kept stays kept. */
  lemma {:induction false} KeptStays(texts: seq<string>, first: seq<nat>, later: seq<nat>)
    requires forall k :: 0 <= k < |first| ==> first[k] < |texts|
    requires forall k :: 0 <= k < |later| ==> later[k] < |texts|
    ensures RunSections(texts, first).kept <= RunSections(texts, first + later).kept
    decreases |later|
  {
    if later == [] {
      assert first + later == first;
    } else {
      var l', i := later[..|later| - 1], later[|later| - 1];
      KeptStays(texts, first, l');
      assert (first + later)[..|first + later| - 1] == first + l';
    }
  }

  lemma FirstTwoKept(texts: seq<string>, a: nat, b: nat)
    requires a < |texts| && b < |texts| && texts[a] != texts[b]
    ensures {a, b} <= RunSections(texts, [a, b]).kept
  {
    assert [a, b][..1] == [a] && [a][..0] == [];
    assert RunSections(texts, [a]) == Shared({texts[a]}, {a});
  }

  /** A schedule that starts with `a` and `b` reports both, in the order of the positions. */
  lemma StartReports<T(!new)>(cids: seq<T>, text: T -> string, a: nat, b: nat) returns (order: seq<nat>, p: nat, q: nat)
    requires Injective(text) && a < |cids| && b < |cids| && cids[a] != cids[b]
    ensures IsSchedule(order, |cids|)
    ensures var r := UniqueCids(cids, text, order);
            p < |r| && q < |r| && r[p] == cids[a] && r[q] == cids[b] && (p < q <==> a < b)
  {
    hide Collect, RunSections, Texts;
    var texts := Texts(cids, text);
    order := [a, b] + Others(|cids|, a, b);
    StartWith(|cids|, a, b);
    assert forall k :: 0 <= k < |order| - 2 ==> Others(|cids|, a, b)[k] == order[k + 2];
    FirstTwoKept(texts, a, b);
    KeptStays(texts, [a, b], Others(|cids|, a, b));
    var kept := RunSections(texts, order).kept;
    var at := CollectPicks(cids, kept, 0);
    assert a in at && b in at;
    p :| 0 <= p < |at| && at[p] == a;
    q :| 0 <= q < |at| && at[q] == b;
  }

  lemma ApartMeansDifferent<T(!new)>(cids: seq<T>, text: T -> string, i: nat, j: nat, k: nat)
    requires Injective(text) && i < j < k < |cids| && cids[i] == cids[k] && cids[j] != cids[i]
    ensures exists order, order' :: IsSchedule(order, |cids|) && IsSchedule(order', |cids|)
                                    && UniqueCids(cids, text, order) != UniqueCids(cids, text, order')
  {
    hide UniqueCids;
    var order, p, q := StartReports(cids, text, i, j);
    var order', p', q' := StartReports(cids, text, k, j);
    var _ := UniqueUnderEverySchedule(cids, text, order);
    var r := UniqueCids(cids, text, order);
    if r == UniqueCids(cids, text, order') {
      OneIndex(r, p, p');
      OneIndex(r, q, q');
      assert false;
    }
  }

  lemma OneIndex<T>(r: seq<T>, p: nat, q: nat)
    requires Distinct(r) && p < |r| && q < |r| && r[p] == r[q]
    ensures p == q
  {
  }

  ghost predicate AllSchedulesAgree<T(!new)>(cids: seq<T>, text: T -> string) {
    forall order, order' :: IsSchedule(order, |cids|) && IsSchedule(order', |cids|) ==>
      UniqueCids(cids, text, order) == UniqueCids(cids, text, order')
  }

  /** The input alone decides the sequence that is returned iff equal CIDs stand together in it. */
  lemma OrderFixedIffGrouped<T(!new)>(cids: seq<T>, text: T -> string)
    requires Injective(text)
    ensures AllSchedulesAgree(cids, text) <==> Grouped(cids)
  {
    hide UniqueCids, FirstAt;
    if Grouped(cids) {
      forall order, order' | IsSchedule(order, |cids|) && IsSchedule(order', |cids|)
        ensures UniqueCids(cids, text, order) == UniqueCids(cids, text, order')
      {
        var at := UniqueUnderEverySchedule(cids, text, order);
        var at' := UniqueUnderEverySchedule(cids, text, order');
        SelectionByFirst(cids, UniqueCids(cids, text, order), at);
        SelectionByFirst(cids, UniqueCids(cids, text, order'), at');
        ByFirstUnique(cids, UniqueCids(cids, text, order), UniqueCids(cids, text, order'));
      }
    } else {
      var i, j, k :| 0 <= i < j < k < |cids| && cids[i] == cids[k] && cids[j] != cids[i];
      ApartMeansDifferent(cids, text, i, j, k);
    }
  }

  /** One execution: the critical sections run in the given order, then the result is collected. */
  method UniqueCidsParallel<T>(cids: seq<T>, text: T -> string, order: seq<nat>) returns (unique: seq<T>)
    requires IsSchedule(order, |cids|)
    ensures unique == UniqueCids(cids, text, order)
  {
    hide Collect;
    ghost var texts := Texts(cids, text);
    var seen: set<string>, kept: set<nat> := {}, {};
    for n := 0 to |order|
      invariant Shared(seen, kept) == RunSections(texts, order[..n])
    {
      assert order[..n + 1][..n] == order[..n];
      var i := order[n];
      if text(cids[i]) !in seen {
        seen := seen + {text(cids[i])};
        kept := kept + {i};
      }
    }
    assert order[..|order|] == order;
    unique := Collect(cids, kept, 0);
  }

  // ----- verification

  /** What verifying one block gives. */
  datatype Verdict = Ok(valid: bool) | Err(error: string)

  /** How the blocks were split; a leaf has looked at its first `looked` blocks. */
  datatype Split = Leaf(blocks: seq<Verdict>, looked: nat) | Node(left: Split, right: Split)

  function Blocks(t: Split): seq<Verdict> {
    match t
    case Leaf(blocks, _) => blocks
    case Node(l, r) => Blocks(l) + Blocks(r)
  }

  /** Sequential fold of a leaf; it stops at the first error. */
  function Fold(blocks: seq<Verdict>, acc: bool): Verdict {
    if blocks == [] then Ok(acc)
    else
      match blocks[0]
      case Err(e) => Err(e)
      case Ok(valid) => Fold(blocks[1..], acc && valid)
  }

  function Combine(a: Verdict, b: Verdict): Verdict {
    if a.Err? then a else if b.Err? then b else Ok(a.valid && b.valid)
  }

  predicate InBounds(t: Split) {
    match t
    case Leaf(blocks, looked) => looked <= |blocks|
    case Node(l, r) => InBounds(l) && InBounds(r)
  }

  function Reduce(t: Split): Verdict
    requires InBounds(t)
  {
    match t
    case Leaf(blocks, looked) => Fold(blocks[..looked], true)
    case Node(l, r) => Combine(Reduce(l), Reduce(r))
  }

  /** Every leaf has looked at all its blocks, or has met an error. */
  predicate Finished(t: Split)
    requires InBounds(t)
  {
    match t
    case Leaf(blocks, looked) => looked == |blocks| || Reduce(t).Err?
    case Node(l, r) => Finished(l) && Finished(r)
  }

  predicate MetError(t: Split)
    requires InBounds(t)
  {
    match t
    case Leaf(_, _) => Reduce(t).Err?
    case Node(l, r) => MetError(l) || MetError(r)
  }

  /** A leaf may be abandoned only once some leaf has met an error. */
  predicate Possible(t: Split, blocks: seq<Verdict>) {
    InBounds(t) && Blocks(t) == blocks && (Finished(t) || MetError(t))
  }

  datatype Answer = Verified | NotVerified | Failed(error: string)

  function VerifyBlocks(t: Split): Answer
    requires InBounds(t)
  {
    match Reduce(t)
    case Err(e) => Failed(e)
    case Ok(valid) => if valid then Verified else NotVerified
  }

  predicate AllTrue(blocks: seq<Verdict>) { forall i :: 0 <= i < |blocks| ==> blocks[i] == Ok(true) }

  predicate SomeError(blocks: seq<Verdict>) { exists i :: 0 <= i < |blocks| && blocks[i].Err? }

  lemma ConcatMeaning(x: seq<Verdict>, y: seq<Verdict>)
    ensures AllTrue(x + y) <==> AllTrue(x) && AllTrue(y)
    ensures SomeError(x + y) <==> SomeError(x) || SomeError(y)
  {
    assert forall i :: 0 <= i < |x| ==> (x + y)[i] == x[i];
    assert forall i :: 0 <= i < |y| ==> (x + y)[|x| + i] == y[i];
    if SomeError(x) {
      var i :| 0 <= i < |x| && x[i].Err?;
      assert (x + y)[i].Err?;
    }
    if SomeError(y) {
      var i :| 0 <= i < |y| && y[i].Err?;
      assert (x + y)[|x| + i].Err?;
    }
  }

  lemma {:induction false} FoldMeaning(blocks: seq<Verdict>, acc: bool)
    ensures Fold(blocks, acc).Err? <==> SomeError(blocks)
    ensures Fold(blocks, acc).Err? ==> Fold(blocks, acc) in blocks
    ensures Fold(blocks, acc).Ok? ==> (Fold(blocks, acc).valid <==> acc && AllTrue(blocks))
  {
    if blocks != [] {
      assert blocks == [blocks[0]] + blocks[1..];
      ConcatMeaning([blocks[0]], blocks[1..]);
      if blocks[0].Ok? {
        FoldMeaning(blocks[1..], acc && blocks[0].valid);
      } else {
        assert [blocks[0]][0].Err?;
      }
    }
  }

  lemma {:induction false} ErrorsSurface(t: Split)
    requires InBounds(t)
    ensures MetError(t) <==> Reduce(t).Err?
    ensures Reduce(t).Err? ==> Reduce(t) in Blocks(t)
  {
    match t
    case Leaf(blocks, looked) => FoldMeaning(blocks[..looked], true);
    case Node(l, r) =>
      ErrorsSurface(l);
      ErrorsSurface(r);
  }

  lemma {:induction false} FinishedMeaning(t: Split)
    requires InBounds(t) && Finished(t)
    ensures Reduce(t).Err? <==> SomeError(Blocks(t))
    ensures Reduce(t).Ok? ==> (Reduce(t).valid <==> AllTrue(Blocks(t)))
  {
    match t
    case Leaf(blocks, looked) =>
      var front := blocks[..looked];
      FoldMeaning(front, true);
      ConcatMeaning(front, blocks[looked..]);
      assert blocks == front + blocks[looked..];
    case Node(l, r) =>
      FinishedMeaning(l);
      FinishedMeaning(r);
      ConcatMeaning(Blocks(l), Blocks(r));
  }

  lemma ErrorsExclude(blocks: seq<Verdict>)
    requires SomeError(blocks)
    ensures !AllTrue(blocks)
  {
  }

  /**
   Under every split and every early stop: success iff every block verifies to true, an error
   of some block iff some block gives one, and otherwise the generic failure.
   */
  lemma VerifyUnderEverySplit(t: Split, blocks: seq<Verdict>)
    requires Possible(t, blocks)
    ensures VerifyBlocks(t) == Verified <==> AllTrue(blocks)
    ensures VerifyBlocks(t).Failed? <==> SomeError(blocks)
    ensures VerifyBlocks(t).Failed? ==> Err(VerifyBlocks(t).error) in blocks
  {
    ErrorsSurface(t);
    if Finished(t) {
      FinishedMeaning(t);
    }
    if Reduce(t).Err? {
      var i :| 0 <= i < |blocks| && blocks[i] == Reduce(t);
      assert blocks[i].Err?;
      ErrorsExclude(blocks);
    }
  }

  // ----- which block the answer is about

  /** Any block that gives an error can be the one whose error is returned. */
  lemma EveryErrorCanWin(blocks: seq<Verdict>, i: nat) returns (t: Split)
    requires i < |blocks| && blocks[i].Err?
    ensures Possible(t, blocks) && VerifyBlocks(t) == Failed(blocks[i].error)
  {
    var l, r := Leaf(blocks[..i], 0), Leaf(blocks[i..], 1);
    t := Node(l, r);
    assert blocks[..i] + blocks[i..] == blocks;
    assert blocks[..i][..0] == [] && Reduce(l) == Ok(true);
    assert blocks[i..][..1] == [blocks[i]];
    assert Reduce(r) == blocks[i];
  }

  predicate FirstInvalid(blocks: seq<Verdict>, k: nat) {
    k < |blocks| && blocks[k] != Ok(true) && AllTrue(blocks[..k])
  }

  /** The answer is about this block: its own error, or the generic failure. */
  predicate AnswersFor(a: Answer, block: Verdict) {
    if block.Err? then a == Failed(block.error) else a == NotVerified
  }

  /**
   The documented promise, an error for the first invalid block, holds under every split iff no
   other block gives a different error.
   */
  lemma FirstInvalidAnsweredIff(blocks: seq<Verdict>, k: nat)
    requires FirstInvalid(blocks, k)
    ensures (forall t :: Possible(t, blocks) ==> AnswersFor(VerifyBlocks(t), blocks[k])) <==>
            (forall i :: 0 <= i < |blocks| && blocks[i].Err? ==> blocks[i] == blocks[k])
  {
    hide Reduce, Finished, MetError, AllTrue;
    if forall t :: Possible(t, blocks) ==> AnswersFor(VerifyBlocks(t), blocks[k]) {
      forall i | 0 <= i < |blocks| && blocks[i].Err?
        ensures blocks[i] == blocks[k]
      {
        var t := EveryErrorCanWin(blocks, i);
        assert AnswersFor(VerifyBlocks(t), blocks[k]);
      }
    }
    if forall i :: 0 <= i < |blocks| && blocks[i].Err? ==> blocks[i] == blocks[k] {
      forall t | Possible(t, blocks)
        ensures AnswersFor(VerifyBlocks(t), blocks[k])
      {
        AnswerOfOnly(t, blocks, k);
      }
    }
  }

  lemma AnswerOfOnly(t: Split, blocks: seq<Verdict>, k: nat)
    requires Possible(t, blocks) && k < |blocks| && blocks[k] != Ok(true)
    requires forall i :: 0 <= i < |blocks| && blocks[i].Err? ==> blocks[i] == blocks[k]
    ensures AnswersFor(VerifyBlocks(t), blocks[k])
  {
    hide Reduce, Finished, MetError;
    VerifyUnderEverySplit(t, blocks);
    assert !AllTrue(blocks);
    if blocks[k].Err? {
      assert SomeError(blocks);
      var i :| 0 <= i < |blocks| && blocks[i] == Err(VerifyBlocks(t).error);
    }
  }
}
