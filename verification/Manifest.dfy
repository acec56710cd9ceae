/** Objects of a bucket manifest. */
module Manifest {
  import opened Prelude

  /** Earlier content of an object. */
  datatype Version = Version(cid: string, size: nat, contentType: string, lastModified: nat)

  datatype Object = Object(key: string, cid: string, size: nat, contentType: string, lastModified: nat,
                           pinned: bool, versions: Option<seq<Version>>)

  predicate DistinctKeys(l: seq<Object>) {
    forall i, j :: 0 <= i < j < |l| ==> l[i].key != l[j].key
  }

  predicate HasKey(l: seq<Object>, key: string) {
    exists i :: 0 <= i < |l| && l[i].key == key
  }

  function TotalSize(l: seq<Object>): nat {
    if l == [] then 0 else TotalSize(l[..|l| - 1]) + l[|l| - 1].size
  }

  /** The objects that satisfy a condition, in order. */
  function Filter(l: seq<Object>, keep: Object -> bool): seq<Object> {
    if l == [] then []
    else
      var o := l[|l| - 1];
      var front := Filter(l[..|l| - 1], keep);
      if keep(o) then front + [o] else front
  }

  lemma FilterSnoc(l: seq<Object>, o: Object, keep: Object -> bool)
    ensures Filter(l + [o], keep) == if keep(o) then Filter(l, keep) + [o] else Filter(l, keep)
  {
    assert (l + [o])[..|l|] == l;
  }

  lemma FilterEmpty(keep: Object -> bool)
    ensures Filter([], keep) == []
  {
  }

  lemma {:induction false} FilterConcat(a: seq<Object>, b: seq<Object>, keep: Object -> bool)
    ensures Filter(a + b, keep) == Filter(a, keep) + Filter(b, keep)
    decreases |b|
  {
    hide Filter;
    if b == [] {
      FilterEmpty(keep);
      assert a + b == a;
    } else {
      var b', o := b[..|b| - 1], b[|b| - 1];
      FilterConcat(a, b', keep);
      FilterSnoc(a + b', o, keep);
      FilterSnoc(b', o, keep);
      assert b == b' + [o] && a + b == (a + b') + [o];
    }
  }

  lemma {:induction false} FilterMembers(l: seq<Object>, keep: Object -> bool)
    ensures forall o :: o in Filter(l, keep) <==> o in l && keep(o)
  {
    if l != [] {
      FilterMembers(l[..|l| - 1], keep);
      assert l == l[..|l| - 1] + [l[|l| - 1]];
    }
  }

  lemma {:induction false} FilterSame(l: seq<Object>, keep: Object -> bool, keep': Object -> bool)
    requires forall o :: o in l ==> keep(o) == keep'(o)
    ensures Filter(l, keep) == Filter(l, keep')
  {
    if l != [] {
      FilterSame(l[..|l| - 1], keep, keep');
    }
  }

  lemma {:induction false} FilterDistinct(l: seq<Object>, keep: Object -> bool)
    requires DistinctKeys(l)
    ensures DistinctKeys(Filter(l, keep))
  {
    if l != [] {
      var l' := l[..|l| - 1];
      FilterDistinct(l', keep);
      FilterMembers(l', keep);
      forall i | 0 <= i < |Filter(l', keep)|
        ensures Filter(l', keep)[i].key != l[|l| - 1].key
      {
        assert Filter(l', keep)[i] in l';
      }
    }
  }

  lemma TotalSnoc(l: seq<Object>, o: Object)
    ensures TotalSize(l + [o]) == TotalSize(l) + o.size
  {
    assert (l + [o])[..|l|] == l;
  }

  lemma {:induction false} FilterSmaller(l: seq<Object>, keep: Object -> bool)
    ensures TotalSize(Filter(l, keep)) <= TotalSize(l)
  {
    if l != [] {
      FilterSmaller(l[..|l| - 1], keep);
      if keep(l[|l| - 1]) {
        TotalSnoc(Filter(l[..|l| - 1], keep), l[|l| - 1]);
      }
    }
  }

  // ----- list operations of the console

  lemma {:induction false} FilterAll(l: seq<Object>, keep: Object -> bool)
    requires forall i :: 0 <= i < |l| ==> keep(l[i])
    ensures Filter(l, keep) == l
  {
    if l != [] {
      FilterAll(l[..|l| - 1], keep);
      assert l == l[..|l| - 1] + [l[|l| - 1]];
    }
  }

  lemma {:induction false} FilterNone(l: seq<Object>, keep: Object -> bool)
    requires forall i :: 0 <= i < |l| ==> !keep(l[i])
    ensures Filter(l, keep) == []
  {
    if l != [] {
      FilterNone(l[..|l| - 1], keep);
    }
  }

  lemma {:induction false} FilterSwap(l: seq<Object>, p: Object -> bool, q: Object -> bool)
    ensures Filter(Filter(l, p), q) == Filter(Filter(l, q), p)
  {
    if l != [] {
      var l', o := l[..|l| - 1], l[|l| - 1];
      FilterSwap(l', p, q);
      FilterSnoc(Filter(l', p), o, q);
      FilterSnoc(Filter(l', q), o, p);
    }
  }

  /** A filter that lets through all that the second one does leaves no trace. */
  lemma {:induction false} FilterImplied(l: seq<Object>, p: Object -> bool, q: Object -> bool)
    requires forall o :: q(o) ==> p(o)
    ensures Filter(Filter(l, p), q) == Filter(l, q)
  {
    if l != [] {
      var l', o := l[..|l| - 1], l[|l| - 1];
      FilterImplied(l', p, q);
      FilterSnoc(Filter(l', p), o, q);
    }
  }

  /** The first object with a key. */
  function Find(l: seq<Object>, key: string): (r: Option<Object>)
    ensures r.Some? ==> r.value in l && r.value.key == key
    ensures r.None? <==> !HasKey(l, key)
  {
    if l == [] then None
    else if l[0].key == key then Some(l[0])
    else
      var r := Find(l[1..], key);
      assert l == [l[0]] + l[1..];
      r
  }

  /** Overwrites the first object with the key of `o`, if there is one. */
  function ReplaceFirst(l: seq<Object>, o: Object): seq<Object> {
    if l == [] then []
    else if l[0].key == o.key then [o] + l[1..]
    else [l[0]] + ReplaceFirst(l[1..], o)
  }

  function MapObjects(l: seq<Object>, f: Object -> Object): (r: seq<Object>)
    ensures |r| == |l| && forall i :: 0 <= i < |l| ==> r[i] == f(l[i])
  {
    seq(|l|, i requires 0 <= i < |l| => f(l[i]))
  }

  /** Setting a key in an insertion-ordered table. */
  function SetKey(l: seq<Object>, o: Object): seq<Object> {
    if HasKey(l, o.key) then ReplaceFirst(l, o) else l + [o]
  }

  function SetKeys(l: seq<Object>, objs: seq<Object>): seq<Object> {
    if objs == [] then l else SetKey(SetKeys(l, objs[..|objs| - 1]), objs[|objs| - 1])
  }

  /** The table of a list, then the incoming objects on top of it. */
  function MergeIn(l: seq<Object>, objs: seq<Object>): seq<Object> { SetKeys(SetKeys([], l), objs) }
}
