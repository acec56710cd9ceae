/** Small vocabulary shared by the other modules. */
module Prelude {

  datatype Option<+T> = None | Some(value: T)

  /** One octet of a buffer. */
  type byte = x: int | 0 <= x < 256

  function Min(x: int, y: int): int { if x < y then x else y }

  function Max(x: int, y: int): int { if x < y then y else x }

  function Abs(x: int): int { if x < 0 then -x else x }

  function Pow2(n: nat): (r: nat)
    ensures r >= 1
  {
    if n == 0 then 1 else 2 * Pow2(n - 1)
  }

  lemma DoubleProduct(x: nat, y: nat)
    ensures (2 * x) * y == 2 * (x * y)
  {
  }

  lemma {:induction false} PowerSum(a: nat, b: nat)
    ensures Pow2(a + b) == Pow2(a) * Pow2(b)
  {
    if a != 0 {
      PowerSum(a - 1, b);
      DoubleProduct(Pow2(a - 1), Pow2(b));
    }
  }

  /** `s` occurs in `buf` at offset `p`. */
  predicate At<T(==)>(buf: seq<T>, p: nat, s: seq<T>) {
    p + |s| <= |buf| && buf[p..p + |s|] == s
  }

  /** Finding a concatenation at an offset is finding its two parts one after the other. */
  lemma AtConcat<T>(buf: seq<T>, p: nat, s: seq<T>, t: seq<T>)
    ensures At(buf, p, s + t) <==> At(buf, p, s) && At(buf, p + |s|, t)
  {
    if p + |s| + |t| <= |buf| {
      var whole := buf[p..p + |s| + |t|];
      assert whole == buf[p..p + |s|] + buf[p + |s|..p + |s| + |t|];
      assert whole[..|s|] == buf[p..p + |s|];
      assert whole[|s|..] == buf[p + |s|..p + |s| + |t|];
      assert (s + t)[..|s|] == s && (s + t)[|s|..] == t;
    }
  }

  /** What stands at an offset of `x` stands, shifted by `|a|`, inside `a + x + b`. */
  lemma AtEmbed<T>(a: seq<T>, x: seq<T>, b: seq<T>, p: nat, s: seq<T>)
    requires At(x, p, s)
    ensures At(a + x + b, |a| + p, s)
  {
    assert (a + x + b)[|a| + p..|a| + p + |s|] == x[p..p + |s|];
  }

  /** All elements of a sequence are different. */
  predicate Distinct<T(==)>(s: seq<T>) {
    forall i, j :: 0 <= i < j < |s| ==> s[i] != s[j]
  }

  /** `r` is made of the elements of `s` at these positions, in order. */
  predicate Picked<T(==)>(s: seq<T>, r: seq<T>, at: seq<nat>) {
    && |at| == |r|
    && (forall k :: 0 <= k < |at| ==> at[k] < |s| && s[at[k]] == r[k])
    && (forall k, l :: 0 <= k < l < |at| ==> at[k] < at[l])
  }

  lemma PickedSnoc<T>(s: seq<T>, r: seq<T>, at: seq<nat>, x: T)
    requires Picked(s, r, at)
    ensures Picked(s + [x], r, at) && Picked(s + [x], r + [x], at + [|s|])
  {
    assert forall k :: 0 <= k < |at| ==> (s + [x])[at[k]] == s[at[k]];
  }

  function Later(at: seq<nat>): (r: seq<nat>)
    ensures |r| == |at| && forall k :: 0 <= k < |at| ==> r[k] == at[k] + 1
  {
    seq(|at|, k requires 0 <= k < |at| => at[k] + 1)
  }

  lemma InLater(at: seq<nat>, i: nat)
    ensures i in Later(at) <==> i > 0 && i - 1 in at
  {
    if i > 0 && i - 1 in at {
      var k :| 0 <= k < |at| && at[k] == i - 1;
      assert Later(at)[k] == i;
    }
    if i in Later(at) {
      var k :| 0 <= k < |at| && Later(at)[k] == i;
      assert at[k] == i - 1;
    }
  }

  lemma PickedCons<T>(h: T, t: seq<T>, r: seq<T>, bt: seq<nat>, keep: bool) returns (at: seq<nat>)
    requires Picked(t, r, bt)
    ensures Picked([h] + t, (if keep then [h] else []) + r, at)
    ensures forall i: nat :: i < |t| + 1 ==> (i in at <==> if i == 0 then keep else i - 1 in bt)
  {
    at := (if keep then [0] else []) + Later(bt);
    var s := [h] + t;
    assert forall k :: 0 <= k < |bt| ==> s[bt[k] + 1] == t[bt[k]];
    forall i: nat | i < |t| + 1
      ensures i in at <==> if i == 0 then keep else i - 1 in bt
    {
      InLater(bt, i);
    }
  }

  predicate Increasing(at: seq<nat>) { forall k, l :: 0 <= k < l < |at| ==> at[k] < at[l] }

  /** Increasing sequences of the same positions are equal. */
  lemma {:induction false} SameIncreasing(a: seq<nat>, b: seq<nat>)
    requires Increasing(a) && Increasing(b) && forall i: nat :: i in a <==> i in b
    ensures a == b
    decreases |a|
  {
    if a == [] {
      NoneInNone(b);
    } else {
      assert a[|a| - 1] in b;
      SameLast(a, b);
      var a', b' := a[..|a| - 1], b[..|b| - 1];
      LastAside(a);
      LastAside(b);
      forall i: nat
        ensures i in a' <==> i in b'
      {
        assert i in a' <==> i in a && i != a[|a| - 1];
        assert i in b' <==> i in b && i != b[|b| - 1];
      }
      SameIncreasing(a', b');
      assert a == a' + [a[|a| - 1]] && b == b' + [b[|b| - 1]];
    }
  }

  lemma NoneInNone(b: seq<nat>)
    requires forall i: nat :: i !in b
    ensures b == []
  {
    if b != [] {
      HasFirst(b);
      assert false;
    }
  }

  lemma HasFirst(b: seq<nat>)
    requires b != []
    ensures exists i: nat :: i in b
  {
    assert b[0] in b;
  }

  lemma SameLast(a: seq<nat>, b: seq<nat>)
    requires a != [] && Increasing(a) && Increasing(b) && forall i: nat :: i in a <==> i in b
    ensures b != [] && a[|a| - 1] == b[|b| - 1]
  {
    assert a[|a| - 1] in b;
    var j :| 0 <= j < |b| && b[j] == a[|a| - 1];
    assert b[|b| - 1] in a;
    var i :| 0 <= i < |a| && a[i] == b[|b| - 1];
  }

  lemma LastAside(a: seq<nat>)
    requires a != [] && Increasing(a)
    ensures Increasing(a[..|a| - 1]) && forall i: nat :: i in a[..|a| - 1] <==> i in a && i != a[|a| - 1]
  {
    var a', x := a[..|a| - 1], a[|a| - 1];
    assert a == a' + [x];
    assert forall k :: 0 <= k < |a'| ==> a'[k] == a[k] < x;
  }

  /** What is picked is decided by which positions are. */
  lemma PickedUnique<T>(s: seq<T>, r: seq<T>, at: seq<nat>, r': seq<T>, at': seq<nat>)
    requires Picked(s, r, at) && Picked(s, r', at') && forall i: nat :: i < |s| ==> (i in at <==> i in at')
    ensures at == at' && r == r'
  {
    forall i: nat
      ensures i in at <==> i in at'
    {
      InRange(s, r, at, i);
      InRange(s, r', at', i);
    }
    SameIncreasing(at, at');
  }

  lemma InRange<T>(s: seq<T>, r: seq<T>, at: seq<nat>, i: nat)
    requires Picked(s, r, at)
    ensures i in at ==> i < |s|
  {
  }

  /** The elements of a sequence, as a set. */
  function Elements<T>(s: seq<T>): set<T> {
    set x | x in s
  }
}
