/** Integers as IEEE doubles: what reading a 64-bit integer into a number does to it. */
module Doubles {
  import opened Prelude

  const TWO53: nat := 0x20_0000_0000_0000

  /** Spacing of the doubles around an integer magnitude. */
  function Ulp(n: nat): (u: nat)
    ensures u >= 1
  {
    if n < TWO53 then 1 else 2 * Ulp(n / 2)
  }

  /** The nearest double to an integer, ties to even. */
  function ToDouble(x: int): int {
    var n := Abs(x);
    var u := Ulp(n);
    var q, r := n / u, n % u;
    var m := if 2 * r < u || (2 * r == u && q % 2 == 0) then q * u else (q + 1) * u;
    if x < 0 then -m else m
  }

  lemma ToDoubleExact(x: int)
    requires Abs(x) <= TWO53
    ensures ToDouble(x) == x
  {
    var n := Abs(x);
    if n == TWO53 {
      assert Ulp(n / 2) == 1;
    }
  }

  /** In general, exactly the multiples of the spacing are kept. */
  lemma ToDoubleExactIff(x: int)
    ensures ToDouble(x) == x <==> Abs(x) % Ulp(Abs(x)) == 0
  {
    var n, u := Abs(x), Ulp(Abs(x));
    var q, r := n / u, n % u;
    assert n == q * u + r;
    assert (q + 1) * u == q * u + u;
  }

  /** The first integer that is not: it is read as 2^53. */
  lemma FirstInexact()
    ensures ToDouble(TWO53 + 1) == TWO53
  {
    var n := TWO53 + 1;
    assert Ulp(n / 2) == 1;
    assert Ulp(n) == 2;
  }

  // ----- the rounding is to the nearest double, ties to even

  /** The integers that are doubles: a significand of 53 bits, shifted. */
  ghost predicate IsDouble(y: int) {
    exists m: int, e: nat :: Abs(m) <= TWO53 && Scaled(y, m, Pow2(e))
  }

  predicate Scaled(y: int, m: int, u: nat) { y == m * u }

  /** The spacing is a power of two that leaves a significand of 53 bits, with its top bit set if above one. */
  lemma {:induction false} UlpPower(n: nat) returns (e: nat)
    ensures Ulp(n) == Pow2(e)
    ensures n < TWO53 * Ulp(n) && (e > 0 ==> TWO53 * Ulp(n) <= 2 * n)
  {
    if n < TWO53 {
      e := 0;
    } else {
      var e' := UlpPower(n / 2);
      e := e' + 1;
      Doubling(n, Ulp(n / 2));
      if e' == 0 {
        assert Ulp(n) == 2;
      }
    }
  }

  lemma Doubling(n: nat, u: nat)
    requires n / 2 < TWO53 * u
    ensures n < TWO53 * (2 * u)
    ensures TWO53 * u <= 2 * (n / 2) ==> TWO53 * (2 * u) <= 2 * n
  {
  }

  lemma MulMonotone(a: int, b: int, c: nat)
    requires a <= b
    ensures a * c <= b * c
  {
  }

  lemma Associate(m: int, a: nat, b: nat)
    ensures m * (a * b) == (m * a) * b
  {
  }

  /** A double of a magnitude at which the spacing is `Pow2(e)` is a multiple of that spacing. */
  lemma DoubleIsMultiple(y: int, e: nat) returns (k: int)
    requires IsDouble(y) && (e == 0 || TWO53 * Pow2(e) < 2 * y)
    ensures y == k * Pow2(e)
  {
    if e == 0 {
      k := y;
      return;
    }
    var m: int, f: nat :| Abs(m) <= TWO53 && Scaled(y, m, Pow2(f));
    if f >= e {
      PowerSum(f - e, e);
      k := m * Pow2(f - e);
      Associate(m, Pow2(f - e), Pow2(e));
    } else {
      SmallPower(m, f, e);
      assert false;
    }
  }

  lemma SmallPower(m: int, f: nat, e: nat)
    requires Abs(m) <= TWO53 && f < e
    ensures 2 * (m * Pow2(f)) <= TWO53 * Pow2(e)
  {
    PowerSum(e - f, f);
    MulMonotone(m, TWO53, Pow2(f));
    PowerAtLeastTwo(e - f);
    MulMonotone(2, Pow2(e - f), Pow2(f));
    MulMonotone(2 * Pow2(f), Pow2(e), TWO53);
    assert 2 * (m * Pow2(f)) <= 2 * (TWO53 * Pow2(f));
    assert (2 * Pow2(f)) * TWO53 == 2 * (TWO53 * Pow2(f));
  }

  lemma PowerAtLeastTwo(n: nat)
    requires n > 0
    ensures Pow2(n) >= 2
  {
  }

  lemma RoundedIs(n: nat) returns (q: nat, r: nat, up: bool)
    ensures var u := Ulp(n);
            && n == q * u + r && r < u
            && ToDouble(n) == (if up then (q + 1) * u else q * u)
            && (if up then 2 * r >= u else 2 * r <= u)
            && (2 * r == u ==> (up <==> q % 2 == 1))
  {
    var u := Ulp(n);
    q, r := n / u, n % u;
    up := !(2 * r < u || (2 * r == u && q % 2 == 0));
  }

  /** No double lies strictly between the two multiples of the spacing around a number. */
  lemma NoDoubleBetween(n: nat, q: nat, r: nat, y: int)
    requires IsDouble(y) && n == q * Ulp(n) + r && r < Ulp(n)
    ensures y <= q * Ulp(n) || y >= (q + 1) * Ulp(n)
  {
    var e := UlpPower(n);
    var u := Ulp(n);
    if e == 0 || TWO53 * u < 2 * y {
      var k := DoubleIsMultiple(y, e);
      if k <= q {
        MulMonotone(k, q, u);
      } else {
        MulMonotone(q + 1, k, u);
      }
    } else {
      HalfSpan(q, r, u);
    }
  }

  lemma HalfSpan(q: nat, r: nat, u: nat)
    requires r < u && TWO53 * u <= 2 * (q * u + r)
    ensures TWO53 * u <= 2 * (q * u)
  {
    if 2 * q < TWO53 {
      TwoMore(q, u);
      assert false;
    }
    MulMonotone(TWO53, 2 * q, u);
    DoubleProduct(q, u);
  }

  lemma TwoMore(q: nat, u: nat)
    requires 2 * q < TWO53
    ensures 2 * (q * u) + 2 * u <= TWO53 * u
  {
    MulMonotone(2 * q + 2, TWO53, u);
    assert (2 * q + 2) * u == 2 * (q * u) + 2 * u;
  }

  lemma ResultIsDouble(n: nat)
    ensures IsDouble(ToDouble(n))
  {
    hide ToDouble, Ulp;
    var e := UlpPower(n);
    var q, r, up := RoundedIs(n);
    if q >= TWO53 {
      MulMonotone(TWO53, q, Ulp(n));
      assert false;
    }
    DoubleOf(ToDouble(n), if up then q + 1 else q, e);
  }

  /** An even number of spacings. */
  ghost predicate EvenMultiple(v: int, u: nat) {
    exists k: int :: k % 2 == 0 && Scaled(v, k, u)
  }

  lemma NearestMagnitude(n: nat, y: int)
    requires IsDouble(y)
    ensures Abs(n - ToDouble(n)) <= Abs(n - y)
    ensures y != ToDouble(n) && Abs(n - y) == Abs(n - ToDouble(n)) ==> EvenMultiple(ToDouble(n), Ulp(n))
  {
    hide ToDouble, Ulp, IsDouble;
    var q, r, up := RoundedIs(n);
    NoDoubleBetween(n, q, r, y);
    var u := Ulp(n);
    assert (q + 1) * u == q * u + u;
    assert Scaled(ToDouble(n), if up then q + 1 else q, u);
  }

  lemma DoubleOf(y: int, m: int, e: nat)
    requires Abs(m) <= TWO53 && Scaled(y, m, Pow2(e))
    ensures IsDouble(y)
  {
  }

  lemma Negated(y: int)
    ensures IsDouble(-y) <==> IsDouble(y)
  {
    hide Scaled, Pow2;
    if IsDouble(y) {
      var m: int, e: nat :| Abs(m) <= TWO53 && Scaled(y, m, Pow2(e));
      NegateScaled(y, m, Pow2(e));
      DoubleOf(-y, -m, e);
    }
    if IsDouble(-y) {
      var m: int, e: nat :| Abs(m) <= TWO53 && Scaled(-y, m, Pow2(e));
      NegateScaled(-y, m, Pow2(e));
      DoubleOf(y, -m, e);
    }
  }

  lemma NegateScaled(y: int, m: int, u: nat)
    requires Scaled(y, m, u)
    ensures Scaled(-y, -m, u)
  {
  }

  /** Reading an integer gives the nearest double, and of two that are equally near the even one. */
  lemma ToDoubleNearest(x: int, y: int)
    requires IsDouble(y)
    ensures IsDouble(ToDouble(x))
    ensures Abs(x - ToDouble(x)) <= Abs(x - y)
    ensures y != ToDouble(x) && Abs(x - y) == Abs(x - ToDouble(x)) ==> EvenMultiple(ToDouble(Abs(x)), Ulp(Abs(x)))
  {
    MagnitudeAndSign(x);
    hide ToDouble, Ulp, IsDouble;
    var n := Abs(x);
    ResultIsDouble(n);
    Negated(y);
    Negated(ToDouble(n));
    NearestMagnitude(n, y);
    NearestMagnitude(n, -y);
  }

  lemma MagnitudeAndSign(x: int)
    ensures ToDouble(x) == if x < 0 then -ToDouble(Abs(x)) else ToDouble(Abs(x))
  {
  }
}
