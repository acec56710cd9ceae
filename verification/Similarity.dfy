/**
 Similarity scores: the n-gram counts and cosine of the key search, and the signed trigram
 vectors and dot product of the knowledge search, with the inequality that bounds both.
 */
module Similarity {
  import opened Prelude

  // ----- sums over a finite set of coordinates

  ghost function Sum<K>(s: set<K>, f: K -> int): int
    decreases |s|
  {
    if s == {} then 0
    else
      var k :| k in s;
      f(k) + Sum(s - {k}, f)
  }

  /** Any element may be taken out first. */
  lemma {:induction false} SumTake<K>(s: set<K>, f: K -> int, x: K)
    requires x in s
    ensures Sum(s, f) == f(x) + Sum(s - {x}, f)
    decreases |s|
  {
    var k :| k in s && Sum(s, f) == f(k) + Sum(s - {k}, f);
    if k != x {
      SumTake(s - {k}, f, x);
      SumTake(s - {x}, f, k);
      assert s - {k} - {x} == s - {x} - {k};
    }
  }

  /** Leaving out non-negative terms does not increase a sum. */
  lemma {:induction false} SumSubset<K>(s: set<K>, t: set<K>, f: K -> int)
    requires s <= t && forall k :: k in t ==> f(k) >= 0
    ensures 0 <= Sum(s, f) <= Sum(t, f)
    decreases |t|
  {
    if t != {} {
      var k :| k in t;
      SumTake(t, f, k);
      if k in s {
        SumTake(s, f, k);
        SumSubset(s - {k}, t - {k}, f);
      } else {
        SumSubset(s, t - {k}, f);
      }
    }
  }

  // ----- the inequality of Cauchy and Schwarz

  function Product<K>(f: K -> int, g: K -> int): K -> int { k => f(k) * g(k) }

  lemma SquareOrder(a: int, b: int)
    requires a * a <= b * b && b >= 0
    ensures a <= b
  {
    if a > b {
      SquareGrows(a - b, b);
      assert false;
    }
  }

  lemma SquareGrows(d: nat, b: nat)
    requires d > 0
    ensures (b + d) * (b + d) > b * b
  {
    assert (b + d) * (b + d) == b * b + 2 * (b * d) + d * d;
  }

  /** One more coordinate (x, y) keeps P * P <= A * B. */
  lemma OneMore(p: int, a: int, b: int, x: int, y: int)
    requires p * p <= a * b && a >= 0 && b >= 0
    ensures (p + x * y) * (p + x * y) <= (a + x * x) * (b + y * y)
  {
    var u, v := a * (y * y), b * (x * x);
    var w := 2 * (p * (x * y));
    assert u >= 0 && v >= 0;
    assert 4 * (u * v) <= (u + v) * (u + v) by {
      assert (u - v) * (u - v) >= 0;
      assert (u + v) * (u + v) == (u - v) * (u - v) + 4 * (u * v);
    }
    assert w * w <= 4 * (u * v) by {
      var z := (x * y) * (x * y);
      assert z >= 0;
      MulOrder(p * p, a * b, z);
      Rearrange(p, a, b, x, y);
    }
    SquareOrder(w, u + v);
    Expand(p, a, b, x, y);
  }

  lemma MulOrder(m: int, n: int, z: int)
    requires m <= n && z >= 0
    ensures m * z <= n * z
  {
  }

  lemma Rearrange(p: int, a: int, b: int, x: int, y: int)
    ensures (2 * (p * (x * y))) * (2 * (p * (x * y))) == 4 * ((p * p) * ((x * y) * (x * y)))
    ensures (a * (y * y)) * (b * (x * x)) == (a * b) * ((x * y) * (x * y))
  {
    var q := x * y;
    assert (2 * (p * q)) * (2 * (p * q)) == 4 * ((p * q) * (p * q));
    assert (p * q) * (p * q) == (p * p) * (q * q);
    var xx, yy := x * x, y * y;
    assert q * q == xx * yy;
    assert (a * yy) * (b * xx) == (a * b) * (xx * yy);
  }

  lemma Expand(p: int, a: int, b: int, x: int, y: int)
    ensures (a + x * x) * (b + y * y) - (p + x * y) * (p + x * y) ==
            (a * b - p * p) + (a * (y * y) + b * (x * x) - 2 * (p * (x * y)))
  {
    var q, xx, yy := x * y, x * x, y * y;
    assert q * q == xx * yy;
    assert (p + q) * (p + q) == p * p + 2 * (p * q) + q * q;
    assert (a + xx) * (b + yy) == a * b + a * yy + b * xx + xx * yy;
  }

  lemma {:induction false} CauchySchwarz<K>(s: set<K>, f: K -> int, g: K -> int)
    ensures var p := Sum(s, Product(f, g)); p * p <= Sum(s, Product(f, f)) * Sum(s, Product(g, g))
    ensures Sum(s, Product(f, f)) >= 0 && Sum(s, Product(g, g)) >= 0
    decreases |s|
  {
    hide Sum;
    if s == {} {
      SumNone(Product(f, g));
      SumNone(Product(f, f));
      SumNone(Product(g, g));
    } else {
      var k :| k in s;
      var rest, x, y := s - {k}, f(k), g(k);
      CauchySchwarz(rest, f, g);
      SumTake(s, Product(f, g), k);
      SumTake(s, Product(f, f), k);
      SumTake(s, Product(g, g), k);
      NextSums(Sum(rest, Product(f, g)), Sum(rest, Product(f, f)), Sum(rest, Product(g, g)), x, y,
               Sum(s, Product(f, g)), Sum(s, Product(f, f)), Sum(s, Product(g, g)));
    }
  }

  lemma SumNone<K>(f: K -> int)
    ensures Sum({}, f) == 0
  {
  }

  lemma NextSums(p: int, a: int, b: int, x: int, y: int, p': int, a': int, b': int)
    requires p * p <= a * b && a >= 0 && b >= 0
    requires p' == x * y + p && a' == x * x + a && b' == y * y + b
    ensures p' * p' <= a' * b' && a' >= 0 && b' >= 0
  {
    OneMore(p, a, b, x, y);
  }

  // ----- n-gram counts

  type Counts = map<string, nat>

  function Get(m: Counts, k: string): nat { if k in m then m[k] else 0 }

  function Coordinates(m: Counts): string -> int { k => Get(m, k) }

  /** Positions among the first `upto` at which the gram stands. */
  function Occurring(s: string, n: nat, upto: nat, gram: string): nat {
    if upto == 0 then 0
    else Occurring(s, n, upto - 1, gram) + (if At(s, upto - 1, gram) && |gram| == n then 1 else 0)
  }

  function Positions(s: string, n: nat): nat { if |s| < n then 0 else |s| - n + 1 }

  /** Occurrences of a gram of a size below `n`. */
  function Counted(s: string, n: nat, gram: string): nat {
    (if n > 2 then Occurring(s, 2, Positions(s, 2), gram) else 0)
    + (if n > 3 then Occurring(s, 3, Positions(s, 3), gram) else 0)
  }

  /** The positions at which a gram stands. */
  function Stands(s: string, gram: string): set<nat> { set p: nat | p < |s| && At(s, p, gram) }

  function StandsBefore(s: string, gram: string, upto: nat): set<nat> { set p: nat | p < upto && At(s, p, gram) }

  lemma {:induction false} OccurringIs(s: string, n: nat, upto: nat, gram: string)
    ensures Occurring(s, n, upto, gram) == if |gram| == n then |StandsBefore(s, gram, upto)| else 0
  {
    if upto == 0 {
      assert StandsBefore(s, gram, upto) == {};
    } else {
      OccurringIs(s, n, upto - 1, gram);
      var before := StandsBefore(s, gram, upto - 1);
      assert StandsBefore(s, gram, upto) == if At(s, upto - 1, gram) then before + {upto - 1} else before;
    }
  }

  lemma CountedIs(s: string, gram: string)
    ensures Counted(s, 4, gram) == if |gram| == 2 || |gram| == 3 then |Stands(s, gram)| else 0
  {
    OccurringIs(s, 2, Positions(s, 2), gram);
    OccurringIs(s, 3, Positions(s, 3), gram);
    if |gram| == 2 || |gram| == 3 {
      assert StandsBefore(s, gram, Positions(s, |gram|)) == Stands(s, gram);
    }
  }

  /** The counts of the 2-grams and 3-grams of a text that has been lower-cased and collapsed. */
  method CharNgrams(s: string) returns (freq: Counts)
    ensures forall gram :: Get(freq, gram) == if |gram| == 2 || |gram| == 3 then |Stands(s, gram)| else 0
    ensures forall gram :: gram in freq ==> freq[gram] > 0
  {
    freq := map[];
    for n := 2 to 4
      invariant forall gram :: Get(freq, gram) == Counted(s, n, gram)
      invariant forall gram :: gram in freq ==> freq[gram] > 0
    {
      for i := 0 to Positions(s, n)
        invariant forall gram :: Get(freq, gram) == Counted(s, n, gram) + Occurring(s, n, i, gram)
        invariant forall gram :: gram in freq ==> freq[gram] > 0
      {
        var ng := s[i..i + n];
        freq := freq[ng := Get(freq, ng) + 1];
      }
    }
    forall gram: string {
      CountedIs(s, gram);
    }
  }

  // ----- the cosine of two count maps

  ghost function Dot(a: Counts, b: Counts): int {
    Sum(a.Keys, Product(Coordinates(a), Coordinates(b)))
  }

  ghost function Norm(a: Counts): int { Sum(a.Keys, Product(Coordinates(a), Coordinates(a))) }

  lemma TakeKey(todo: set<string>, a: Counts, b: Counts, k: string)
    requires k in todo
    ensures Sum(todo, Product(Coordinates(a), Coordinates(b))) ==
            Get(a, k) * Get(b, k) + Sum(todo - {k}, Product(Coordinates(a), Coordinates(b)))
  {
    SumTake(todo, Product(Coordinates(a), Coordinates(b)), k);
  }

  /** The three running sums of the score; the order in which keys are visited does not matter. */
  method CosineSums(a: Counts, b: Counts) returns (dot: int, normA: int, normB: int)
    ensures dot == Dot(a, b) && normA == Norm(a) && normB == Norm(b)
  {
    hide Sum, Product, Coordinates;
    SumNone(Product(Coordinates(a), Coordinates(b)));
    SumNone(Product(Coordinates(a), Coordinates(a)));
    SumNone(Product(Coordinates(b), Coordinates(b)));
    dot, normA, normB := 0, 0, 0;
    var todo := a.Keys;
    while todo != {}
      invariant todo <= a.Keys
      invariant dot + Sum(todo, Product(Coordinates(a), Coordinates(b))) == Dot(a, b)
      invariant normA + Sum(todo, Product(Coordinates(a), Coordinates(a))) == Norm(a)
      decreases todo
    {
      var k :| k in todo;
      TakeKey(todo, a, b, k);
      TakeKey(todo, a, a, k);
      dot := dot + a[k] * Get(b, k);
      normA := normA + a[k] * a[k];
      todo := todo - {k};
    }
    todo := b.Keys;
    while todo != {}
      invariant todo <= b.Keys
      invariant normB + Sum(todo, Product(Coordinates(b), Coordinates(b))) == Norm(b)
      decreases todo
    {
      var k :| k in todo;
      TakeKey(todo, b, b, k);
      normB := normB + b[k] * b[k];
      todo := todo - {k};
    }
  }

  /** Coordinates of `b` outside the keys of `a` do not matter for the part inside them. */
  lemma NormInside(a: Counts, b: Counts)
    ensures Sum(a.Keys, Product(Coordinates(b), Coordinates(b))) <= Norm(b)
  {
    hide Sum;
    var g := Product(Coordinates(b), Coordinates(b));
    var shared := a.Keys * b.Keys;
    SumSubset(shared, b.Keys, g);
    SumElsewhere(shared, a.Keys, g);
  }

  lemma DotNonNegative(a: Counts, b: Counts)
    ensures Dot(a, b) >= 0
  {
    hide Sum;
    SumNone(Product(Coordinates(a), Coordinates(b)));
    SumSubset({}, a.Keys, Product(Coordinates(a), Coordinates(b)));
  }

  /** The square of the dot product is at most the product of the norms. */
  lemma DotBound(a: Counts, b: Counts)
    ensures Dot(a, b) >= 0 && Dot(a, b) * Dot(a, b) <= Norm(a) * Norm(b)
  {
    hide Sum, Product, Coordinates;
    DotNonNegative(a, b);
    CauchySchwarz(a.Keys, Coordinates(a), Coordinates(b));
    NormInside(a, b);
    MulOrderRight(Norm(a), Sum(a.Keys, Product(Coordinates(b), Coordinates(b))), Norm(b));
  }

  lemma {:induction false} SumElsewhere<K>(s: set<K>, t: set<K>, f: K -> int)
    requires s <= t && forall k :: k in t - s ==> f(k) == 0
    ensures Sum(s, f) == Sum(t, f)
    decreases |t|
  {
    if t != {} {
      var k :| k in t;
      SumTake(t, f, k);
      if k in s {
        SumTake(s, f, k);
        SumElsewhere(s - {k}, t - {k}, f);
      } else {
        SumElsewhere(s, t - {k}, f);
      }
    }
  }

  lemma MulOrderRight(z: int, m: int, n: int)
    requires m <= n && z >= 0
    ensures z * m <= z * n
  {
  }

  lemma OneRatio(n: real)
    requires n != 0.0
    ensures n / n == 1.0
  {
  }

  lemma RealSquareGrows(e: real, m: real)
    requires e > 0.0 && m > 0.0
    ensures (m + e) * (m + e) > m * m
  {
    assert (m + e) * (m + e) == m * m + 2.0 * (m * e) + e * e;
  }

  lemma UnitRatio(d: real, m: real)
    requires 0.0 <= d && 0.0 < m && d * d <= m * m
    ensures 0.0 <= d / m <= 1.0
  {
    RootOrder(d, m);
    assert d / m * m == d;
  }

  lemma RealSquares(d: int, na: int, nb: int, ra: real, rb: real)
    requires d * d <= na * nb && ra * ra == na as real && rb * rb == nb as real
    ensures (d as real) * (d as real) <= (ra * rb) * (ra * rb)
  {
    assert (d as real) * (d as real) == (d * d) as real;
    assert (na * nb) as real == (na as real) * (nb as real);
    assert (ra * rb) * (ra * rb) == (ra * ra) * (rb * rb);
  }

  /**
   With exact square roots `ra` and `rb` of the two norms the score of two texts lies between 0
   and 1; it is 0 when one of the norms is. The roots and the quotient that the console computes
   are doubles, and rounding can take the score past 1.
   */
  lemma CosineInUnitInterval(a: Counts, b: Counts, ra: real, rb: real)
    requires ra > 0.0 && rb > 0.0 && ra * ra == Norm(a) as real && rb * rb == Norm(b) as real
    ensures 0.0 <= Dot(a, b) as real / (ra * rb) <= 1.0
  {
    hide Dot, Norm;
    DotBound(a, b);
    RealSquares(Dot(a, b), Norm(a), Norm(b), ra, rb);
    UnitRatio(Dot(a, b) as real, ra * rb);
  }

  /** With an exact square root the score of a text with itself is 1; in doubles it is 1 up to rounding. */
  lemma SelfSimilarity(a: Counts, ra: real)
    requires Norm(a) != 0 && ra * ra == Norm(a) as real
    ensures Dot(a, a) as real / (ra * ra) == 1.0
  {
    hide Sum;
    assert Dot(a, a) == Norm(a);
    OneRatio(Norm(a) as real);
  }

  lemma RealMulOrder(x: real, x': real, y: real, y': real)
    requires 0.0 <= x <= x' && 0.0 <= y <= y'
    ensures 0.0 <= x * y <= x' * y'
  {
    assert x * y <= x' * y <= x' * y';
  }

  lemma RootOrder(d: real, m: real)
    requires 0.0 <= d && 0.0 < m && d * d <= m * m
    ensures d <= m
  {
    if d > m {
      RealSquareGrows(d - m, m);
      assert false;
    }
  }

  lemma RoundedRoots(d: int, na: int, nb: int, x: real, y: real)
    requires d >= 0 && na >= 0 && nb >= 0 && d * d <= na * nb && x > 0.0 && y > 0.0
    requires na as real <= x * x && nb as real <= y * y
    ensures d as real <= x * y
  {
    assert (d as real) * (d as real) == (d * d) as real <= (na * nb) as real == (na as real) * (nb as real);
    RealMulOrder(na as real, x * x, nb as real, y * y);
    assert (x * x) * (y * y) == (x * y) * (x * y);
    RootOrder(d as real, x * y);
  }

  lemma RatioAtMost(d: real, den: real, c: real)
    requires den > 0.0 && d <= c * den
    ensures d / den <= c
  {
    assert d / den * den == d;
    if d / den > c {
      RealMulStrict(d / den, c, den);
      assert false;
    }
  }

  lemma RealMulStrict(x: real, y: real, z: real)
    requires x > y && z > 0.0
    ensures x * z > y * z
  {
    assert (x - y) * z > 0.0;
  }

  /**
   The score with rounding: the two roots, their product and the quotient may each err by a
   factor of at most `f`; then the score is at most the fourth power of that factor.
   */
  lemma RoundedCosine(a: Counts, b: Counts, ra: real, rb: real, den: real, score: real, f: real)
    requires f >= 1.0 && ra > 0.0 && rb > 0.0 && den > 0.0
    requires Norm(a) as real <= (f * ra) * (f * ra) && Norm(b) as real <= (f * rb) * (f * rb)
    requires ra * rb <= f * den && score <= f * (Dot(a, b) as real / den)
    ensures score <= f * f * f * f
  {
    hide Dot, Norm;
    DotBound(a, b);
    NormNonNegative(a);
    NormNonNegative(b);
    RoundedScore(Dot(a, b), Norm(a), Norm(b), ra, rb, den, score, f);
  }

  lemma NormNonNegative(a: Counts)
    ensures Norm(a) >= 0
  {
    hide Sum;
    DotNonNegative(a, a);
    assert Dot(a, a) == Norm(a);
  }

  lemma RoundedScore(d: int, na: int, nb: int, ra: real, rb: real, den: real, score: real, f: real)
    requires d >= 0 && na >= 0 && nb >= 0 && d * d <= na * nb
    requires f >= 1.0 && ra > 0.0 && rb > 0.0 && den > 0.0
    requires na as real <= (f * ra) * (f * ra) && nb as real <= (f * rb) * (f * rb)
    requires ra * rb <= f * den && score <= f * (d as real / den)
    ensures score <= f * f * f * f
  {
    RoundedRoots(d, na, nb, f * ra, f * rb);
    ThreeFactors(f, ra, rb, den);
    RatioAtMost(d as real, den, f * f * f);
    FourFactors(f, d as real / den, score);
  }

  lemma ThreeFactors(f: real, ra: real, rb: real, den: real)
    requires f >= 1.0 && ra * rb <= f * den
    ensures (f * ra) * (f * rb) <= (f * f * f) * den
  {
    assert (f * ra) * (f * rb) == (f * f) * (ra * rb);
    assert (f * f * f) * den == (f * f) * (f * den);
    assert f * f >= 1.0;
    assert (f * f) * (f * den - ra * rb) >= 0.0;
  }

  lemma FourFactors(f: real, q: real, score: real)
    requires f >= 1.0 && q <= f * f * f && score <= f * q
    ensures score <= f * f * f * f
  {
    assert f * (f * f * f - q) >= 0.0;
  }

  // ----- signed trigram vectors

  const FNV_OFFSET: nat := 0xcbf29ce484222325
  const FNV_PRIME: nat := 0x100000001b3
  const TWO64: nat := 0x1_0000_0000_0000_0000

  function Xor(h: nat, code: nat): nat
    requires h < TWO64 && code < TWO64
  {
    ((h as bv64) ^ (code as bv64)) as nat
  }

  function HashStep(h: nat, code: nat): nat
    requires h < TWO64 && code < TWO64
  {
    Xor(h, code) * FNV_PRIME % TWO64
  }

  /** FNV-1a over the three characters of a trigram. */
  function Hash(a: char, b: char, c: char): (h: nat)
    ensures h < TWO64
  {
    HashStep(HashStep(HashStep(FNV_OFFSET, a as nat), b as nat), c as nat)
  }

  function Sign(h: nat): int { if h >= 0x8000_0000_0000_0000 then -1 else 1 }

  lemma SomeXors()
    ensures Xor(0xcbf2_9ce4_8422_2325, 102) == 0xcbf2_9ce4_8422_2343
    ensures Xor(0xaf63_db4c_8601_ead9, 111) == 0xaf63_db4c_8601_eab6
    ensures Xor(0x0898_5907_b541_d342, 111) == 0x0898_5907_b541_d32d
    ensures Xor(0xcbf2_9ce4_8422_2325, 116) == 0xcbf2_9ce4_8422_2351
    ensures Xor(0xaf63_e94c_8602_02a3, 104) == 0xaf63_e94c_8602_02cb
    ensures Xor(0x08c8_3807_b56a_bef1, 101) == 0x08c8_3807_b56a_be94
  {
    assert (0xcbf2_9ce4_8422_2325 as bv64 ^ 102 as bv64) as nat == 0xcbf2_9ce4_8422_2343;
    assert (0xaf63_db4c_8601_ead9 as bv64 ^ 111 as bv64) as nat == 0xaf63_db4c_8601_eab6;
    assert (0x0898_5907_b541_d342 as bv64 ^ 111 as bv64) as nat == 0x0898_5907_b541_d32d;
    assert (0xcbf2_9ce4_8422_2325 as bv64 ^ 116 as bv64) as nat == 0xcbf2_9ce4_8422_2351;
    assert (0xaf63_e94c_8602_02a3 as bv64 ^ 104 as bv64) as nat == 0xaf63_e94c_8602_02cb;
    assert (0x08c8_3807_b56a_bef1 as bv64 ^ 101 as bv64) as nat == 0x08c8_3807_b56a_be94;
  }

  /** The published 64-bit FNV-1a value of "foo", and one with the top bit clear. */
  lemma HashValues()
    ensures Hash('f', 'o', 'o') == 0xdcb2_7518_fed9_d577 && Hash('t', 'h', 'e') == 0x56f5_c919_4461_d57c
  {
    hide Xor;
    SomeXors();
    assert 'f' as nat == 102 && 'o' as nat == 111 && 't' as nat == 116 && 'h' as nat == 104 && 'e' as nat == 101;
    assert HashStep(0xcbf2_9ce4_8422_2325, 102) == 0xaf63_db4c_8601_ead9;
    assert HashStep(0xaf63_db4c_8601_ead9, 111) == 0x0898_5907_b541_d342;
    assert HashStep(0x0898_5907_b541_d342, 111) == 0xdcb2_7518_fed9_d577;
    assert HashStep(0xcbf2_9ce4_8422_2325, 116) == 0xaf63_e94c_8602_02a3;
    assert HashStep(0xaf63_e94c_8602_02a3, 104) == 0x08c8_3807_b56a_bef1;
    assert HashStep(0x08c8_3807_b56a_bef1, 101) == 0x56f5_c919_4461_d57c;
  }

  /** Bit 63 of the hash decides the sign. */
  lemma SignIsTopBit(h: nat)
    requires h < TWO64
    ensures Sign(h) == if h / 0x8000_0000_0000_0000 % 2 == 1 then -1 else 1
  {
  }

  /** What the trigrams starting before `upto` add to coordinate `k`. */
  function Projected(chars: string, dim: nat, upto: nat, k: nat): int
    requires dim > 0 && upto + 2 <= |chars|
  {
    if upto == 0 then 0
    else
      var h := Hash(chars[upto - 1], chars[upto], chars[upto + 1]);
      Projected(chars, dim, upto - 1, k) + (if h % dim == k then Sign(h) else 0)
  }

  /** The vector before normalisation; `chars` is the padded, lower-cased text. */
  method Embed(chars: string, dim: nat) returns (v: array<int>)
    requires dim > 0 && |chars| >= 2
    ensures fresh(v) && v.Length == dim
    ensures forall k :: 0 <= k < dim ==> v[k] == Projected(chars, dim, |chars| - 2, k)
  {
    hide Hash;
    v := new int[dim](_ => 0);
    for i := 0 to |chars| - 2
      invariant forall k :: 0 <= k < dim ==> v[k] == Projected(chars, dim, i, k)
    {
      var h := Hash(chars[i], chars[i + 1], chars[i + 2]);
      var idx := h % dim;
      v[idx] := v[idx] + Sign(h);
    }
  }

  function At0(v: seq<int>): int -> int { k => if 0 <= k < |v| then v[k] else 0 }

  ghost function Indices(n: nat): set<int> {
    if n == 0 then {} else Indices(n - 1) + {n - 1}
  }

  lemma {:induction false} IndicesBelow(n: nat, k: int)
    ensures k in Indices(n) <==> 0 <= k < n
  {
    if n != 0 {
      IndicesBelow(n - 1, k);
    }
  }

  function DotUpTo(a: seq<int>, b: seq<int>, n: nat): int
    requires n <= |a| && n <= |b|
  {
    if n == 0 then 0 else DotUpTo(a, b, n - 1) + a[n - 1] * b[n - 1]
  }

  /** A coordinate that the second vector lacks makes the sum no number. */
  method Cosine(a: seq<int>, b: seq<int>) returns (s: Option<int>)
    ensures s == if |a| <= |b| then Some(DotUpTo(a, b, |a|)) else None
  {
    s := Some(0);
    for i := 0 to |a|
      invariant s == if i <= |b| then Some(DotUpTo(a, b, i)) else None
    {
      s := if s.Some? && i < |b| then Some(s.value + a[i] * b[i]) else None;
    }
  }

  lemma {:induction false} DotIsSum(a: seq<int>, b: seq<int>, n: nat)
    requires n <= |a| && n <= |b|
    ensures DotUpTo(a, b, n) == Sum(Indices(n), Product(At0(a), At0(b)))
  {
    hide Sum;
    if n == 0 {
      SumNone(Product(At0(a), At0(b)));
    } else {
      DotIsSum(a, b, n - 1);
      IndicesBelow(n - 1, n - 1);
      assert Indices(n) - {n - 1} == Indices(n - 1);
      SumTake(Indices(n), Product(At0(a), At0(b)), n - 1);
    }
  }

  /** The same bound for signed vectors of one dimension. */
  lemma SignedDotBound(a: seq<int>, b: seq<int>)
    requires |a| == |b|
    ensures DotUpTo(a, b, |a|) * DotUpTo(a, b, |a|) <= DotUpTo(a, a, |a|) * DotUpTo(b, b, |b|)
  {
    hide Sum, DotUpTo, Product;
    DotIsSum(a, b, |a|);
    DotIsSum(a, a, |a|);
    DotIsSum(b, b, |a|);
    CauchySchwarz(Indices(|a|), At0(a), At0(b));
  }
}
