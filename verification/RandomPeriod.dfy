/** The period of rand: from any seed in 1 to 2^31 - 2 every such state comes up exactly
    once before the first repeats, because 16807 has order 2^31 - 2 modulo 2^31 - 1. */
module RandomPeriod {
  import opened Bits
  import opened Random

  /** 2 * 3 * 3 * 7 * 11 * 31 * 151 * 331 */
  const ORDER: nat := 2147483646

  // ----- runs joined end to end

  lemma {:induction false} AfterAdd(x: int, j: nat, k: nat)
    ensures After(x, j + k) == After(After(x, j), k)
    decreases k
  {
    if k > 0 {
      AfterAdd(x, j, k - 1);
      assert After(x, j + k) == Step(After(x, j + k - 1));
    }
  }

  /** k calls multiply every state by v. */
  ghost predicate Multiplies(k: nat, v: int) {
    0 <= v < MODULUS && forall x :: 0 <= x < MODULUS ==> After(x, k) == v * x % MODULUS
  }

  lemma MultipliesOne(k: nat)
    requires k == 1
    ensures Multiplies(k, FACTOR)
  {
    forall x | 0 <= x < MODULUS ensures After(x, k) == FACTOR * x % MODULUS {
      assert After(x, k) == Step(After(x, k - 1)) && After(x, k - 1) == x;
    }
  }

  lemma Compose(j: nat, u: int, k: nat, v: int, w: int)
    requires Multiplies(j, u) && Multiplies(k, v) && w == u * v % MODULUS
    ensures Multiplies(j + k, w)
  {
    forall x | 0 <= x < MODULUS ensures After(x, j + k) == w * x % MODULUS {
      AfterAdd(x, k, j);
      var y := v * x % MODULUS;
      Product(u, v, w, x);
      assert After(y, j) == u * y % MODULUS;
    }
  }

  lemma Product(u: int, v: int, w: int, x: int)
    requires w == u * v % MODULUS
    ensures u * (v * x % MODULUS) % MODULUS == w * x % MODULUS
  {
    var p, q := v * x, u * v;
    MulMod(p, u);
    MulMod(q, x);
    assert u * p == x * q;
    assert x * w == w * x;
  }

  /** The multiplier of k calls is unique. */
  lemma OneMultiplier(k: nat, v: int, w: int)
    requires Multiplies(k, v) && Multiplies(k, w)
    ensures v == w
  {
    assert After(1, k) == v * 1 % MODULUS == w * 1 % MODULUS;
  }

  // ----- the certificate: FACTOR to the ORDER is 1, to no ORDER / p; each vN is the
  // multiplier of N times k calls, reached by a short chain of products

  lemma Raise2(k: nat, v: int, v2: int)
    requires Multiplies(k, v) && v2 == v * v % MODULUS
    ensures Multiplies(2 * k, v2)
  {
    Compose(k, v, k, v, v2);
  }

  lemma Raise3(k: nat, v: int, v2: int, v3: int)
    requires Multiplies(k, v) && v2 == v * v % MODULUS && v3 == v2 * v % MODULUS
    ensures Multiplies(3 * k, v3)
  {
    Compose(k, v, k, v, v2);
    Compose(2 * k, v2, k, v, v3);
  }

  lemma Raise7(k: nat, v: int, v2: int, v3: int, v6: int, v7: int)
    requires Multiplies(k, v) && v2 == v * v % MODULUS && v3 == v2 * v % MODULUS && v6 == v3 * v3 % MODULUS
    requires v7 == v6 * v % MODULUS
    ensures Multiplies(7 * k, v7)
  {
    Compose(k, v, k, v, v2);
    Compose(2 * k, v2, k, v, v3);
    Compose(3 * k, v3, 3 * k, v3, v6);
    Compose(6 * k, v6, k, v, v7);
  }

  lemma Raise11(k: nat, v: int, v2: int, v4: int, v5: int, v10: int, v11: int)
    requires Multiplies(k, v) && v2 == v * v % MODULUS && v4 == v2 * v2 % MODULUS && v5 == v4 * v % MODULUS
    requires v10 == v5 * v5 % MODULUS && v11 == v10 * v % MODULUS
    ensures Multiplies(11 * k, v11)
  {
    Compose(k, v, k, v, v2);
    Compose(2 * k, v2, 2 * k, v2, v4);
    Compose(4 * k, v4, k, v, v5);
    Compose(5 * k, v5, 5 * k, v5, v10);
    Compose(10 * k, v10, k, v, v11);
  }

  lemma Raise31(k: nat, v: int, v2: int, v3: int, v6: int, v12: int, v24: int, v30: int, v31: int)
    requires Multiplies(k, v) && v2 == v * v % MODULUS && v3 == v2 * v % MODULUS && v6 == v3 * v3 % MODULUS
    requires v12 == v6 * v6 % MODULUS && v24 == v12 * v12 % MODULUS
    requires v30 == v24 * v6 % MODULUS && v31 == v30 * v % MODULUS
    ensures Multiplies(31 * k, v31)
  {
    Compose(k, v, k, v, v2);
    Compose(2 * k, v2, k, v, v3);
    Compose(3 * k, v3, 3 * k, v3, v6);
    Compose(6 * k, v6, 6 * k, v6, v12);
    Compose(12 * k, v12, 12 * k, v12, v24);
    Compose(24 * k, v24, 6 * k, v6, v30);
    Compose(30 * k, v30, k, v, v31);
  }

  lemma Raise151(k: nat, v: int, v2: int, v3: int, v5: int, v10: int, v15: int, v25: int, v50: int,
                 v75: int, v150: int, v151: int)
    requires Multiplies(k, v) && v2 == v * v % MODULUS && v3 == v2 * v % MODULUS && v5 == v3 * v2 % MODULUS
    requires v10 == v5 * v5 % MODULUS && v15 == v10 * v5 % MODULUS && v25 == v15 * v10 % MODULUS
    requires v50 == v25 * v25 % MODULUS && v75 == v50 * v25 % MODULUS && v150 == v75 * v75 % MODULUS
    requires v151 == v150 * v % MODULUS
    ensures Multiplies(151 * k, v151)
  {
    Compose(k, v, k, v, v2);
    Compose(2 * k, v2, k, v, v3);
    Compose(3 * k, v3, 2 * k, v2, v5);
    Compose(5 * k, v5, 5 * k, v5, v10);
    Compose(10 * k, v10, 5 * k, v5, v15);
    Compose(15 * k, v15, 10 * k, v10, v25);
    Compose(25 * k, v25, 25 * k, v25, v50);
    Compose(50 * k, v50, 25 * k, v25, v75);
    Compose(75 * k, v75, 75 * k, v75, v150);
    Compose(150 * k, v150, k, v, v151);
  }

  lemma Raise331(k: nat, v: int, v2: int, v3: int, v5: int, v10: int, v20: int, v40: int, v80: int,
                 v160: int, v320: int, v330: int, v331: int)
    requires Multiplies(k, v) && v2 == v * v % MODULUS && v3 == v2 * v % MODULUS && v5 == v3 * v2 % MODULUS
    requires v10 == v5 * v5 % MODULUS && v20 == v10 * v10 % MODULUS && v40 == v20 * v20 % MODULUS
    requires v80 == v40 * v40 % MODULUS
    requires v160 == v80 * v80 % MODULUS && v320 == v160 * v160 % MODULUS && v330 == v320 * v10 % MODULUS
    requires v331 == v330 * v % MODULUS
    ensures Multiplies(331 * k, v331)
  {
    Compose(k, v, k, v, v2);
    Compose(2 * k, v2, k, v, v3);
    Compose(3 * k, v3, 2 * k, v2, v5);
    Compose(5 * k, v5, 5 * k, v5, v10);
    Compose(10 * k, v10, 10 * k, v10, v20);
    Compose(20 * k, v20, 20 * k, v20, v40);
    Compose(40 * k, v40, 40 * k, v40, v80);
    Compose(80 * k, v80, 80 * k, v80, v160);
    Compose(160 * k, v160, 160 * k, v160, v320);
    Compose(320 * k, v320, 10 * k, v10, v330);
    Compose(330 * k, v330, k, v, v331);
  }

  lemma Root1549411()
    ensures Multiplies(1549411, 942143378)
  {
    MultipliesOne(1);
    Raise31(1, 16807, 282475249, 1622650073, 470211272, 1115438165, 1998097157, 1505795335, 1954899097);
    Raise151(31, 1954899097, 1083454666, 753799505, 685583454, 252193898, 1492192799, 245832299, 805392551, 1999469630,
          2098119217, 184149733);
    Raise331(4681, 184149733, 1588280530, 1815234683, 1852503222, 1474535260, 1152674425, 1397824669, 583539915,
          1977651486, 525406924, 808730843, 942143378);
  }

  lemma Root13944699()
    ensures Multiplies(4648233, 1689239032) && Multiplies(13944699, 266474556)
  {
    Root1549411();
    Raise3(1549411, 942143378, 1451889758, 1689239032);
    Raise3(4648233, 1689239032, 1429973598, 266474556);
  }

  lemma Orders2And3()
    ensures Multiplies(ORDER, 1) && Multiplies(ORDER / 2, 2147483646) && Multiplies(ORDER / 3, 634005911)
  {
    Root13944699();
    Raise2(4648233, 1689239032, 1429973598);
    Raise7(9296466, 1429973598, 494294169, 1166146077, 1297435884, 1414113276);
    Raise11(65075262, 1414113276, 1400084205, 1448142726, 1958286659, 1594528178, 634005911);
    Raise7(13944699, 266474556, 1166146077, 2067456661, 414363975, 1819912402);
    Raise11(97612893, 1819912402, 298192073, 2080850853, 7522529, 100973744, 2147483646);
    Raise2(1073741823, 2147483646, 1);
  }

  lemma Orders7And11()
    ensures Multiplies(ORDER / 7, 1600955193) && Multiplies(ORDER / 11, 298192073)
  {
    Root13944699();
    Raise2(13944699, 266474556, 1166146077);
    Raise11(27889398, 1166146077, 1297435884, 1385026292, 400258458, 469006124, 1600955193);
    Raise7(27889398, 1166146077, 1297435884, 414363975, 1447247265, 298192073);
  }

  lemma Root1386()
    ensures Multiplies(1386, 1179617774)
  {
    MultipliesOne(1);
    Raise2(1, 16807, 282475249);
    Raise3(2, 282475249, 984943658, 470211272);
    Raise3(6, 470211272, 1115438165, 16531729);
    Raise7(18, 16531729, 704877633, 590357944, 70982397, 1524325968);
    Raise11(126, 1524325968, 1887638, 501848671, 707765235, 1713417723, 1179617774);
  }

  lemma Orders31To331()
    ensures Multiplies(ORDER / 31, 16384)
    ensures Multiplies(ORDER / 151, 1013763951) && Multiplies(ORDER / 331, 759513457)
  {
    Root1386();
    Raise151(1386, 1179617774, 970181005, 2047383381, 1421726854, 644118171, 1353207565, 1369251985, 1812475962,
          1763597542, 1777464897, 2046615961);
    Raise331(209286, 2046615961, 38296465, 597824434, 981473993, 2055866956, 2141830927, 834214687, 654201397,
          57866519, 1425115907, 1444099746, 16384);
    Raise31(1386, 1179617774, 970181005, 2047383381, 1193132871, 1552828735, 1640375542, 743196361, 1730649443);
    Raise331(42966, 1730649443, 1376674263, 947038503, 1018536654, 1268820004, 1612600255, 1146547535, 1770780045,
          330131342, 919992428, 688128574, 1013763951);
    Raise151(42966, 1730649443, 1376674263, 947038503, 1018536654, 1268820004, 2063643943, 822599191, 1186327702,
          1722962606, 252779128, 759513457);
  }

  // ----- divisors of the ORDER

  ghost predicate Prime(p: nat) {
    p >= 2 && forall d :: 2 <= d < p ==> p % d != 0
  }

  /** No divisor from d on whose square is at most p. */
  predicate NoDivisor(p: nat, d: nat)
    requires d > 0
    decreases p - d
  {
    d >= p || d * d > p || (p % d != 0 && NoDivisor(p, d + 1))
  }

  lemma {:induction false} NoDivisorAt(p: nat, a: nat, d: nat)
    requires 0 < a <= d < p && d * d <= p && NoDivisor(p, a)
    ensures p % d != 0
    decreases d - a
  {
    if a < d {
      assert a * a <= d * d;
      NoDivisorAt(p, a + 1, d);
    }
  }

  lemma PrimeByTrial(p: nat)
    requires p >= 2 && NoDivisor(p, 2)
    ensures Prime(p)
  {
    forall d | 2 <= d < p ensures p % d != 0 {
      if p % d == 0 {
        var e := p / d;
        Cofactor(p, d, e);
        NoDivisorAt(p, 2, if d <= e then d else e);
      }
    }
  }

  lemma Cofactor(p: nat, d: nat, e: nat)
    requires 2 <= d < p && p % d == 0 && e == p / d
    ensures 2 <= e < p && p % e == 0 && (if d <= e then d * d <= p else e * e <= p)
  {
    assert p == d * e == e * d;
    assert e != 0 && e != 1;
    DivModUnique(p, e, d, 0);
    MulMono(2, d, e);
    if d <= e {
      MulMono(d, e, d);
    } else {
      MulMono(e, d, e);
    }
  }

  lemma SmallPrimes()
    ensures Prime(2) && Prime(3) && Prime(7) && Prime(11) && Prime(31) && Prime(151) && Prime(331)
  {
    assert NoDivisor(151, 8);
    assert NoDivisor(331, 14);
    assert NoDivisor(331, 8);
    PrimeByTrial(2);
    PrimeByTrial(3);
    PrimeByTrial(7);
    PrimeByTrial(11);
    PrimeByTrial(31);
    PrimeByTrial(151);
    PrimeByTrial(331);
  }

  /** A prime that divides a * b and not a divides b. */
  lemma {:induction false} Euclid(p: nat, a: nat, b: nat, m: nat) returns (n: nat)
    requires Prime(p) && 0 < a < p && a * b == p * m
    ensures b == p * n
    decreases a
  {
    if a == 1 {
      return m;
    }
    var t, r := p / a, p % a;
    EuclidStep(p, a, b, m, t, r);
    n := Euclid(p, r, b, b - t * m);
  }

  lemma EuclidStep(p: nat, a: nat, b: nat, m: nat, t: nat, r: nat)
    requires 1 < a < p && a * b == p * m && p == a * t + r
    ensures t * m <= b && r * b == p * (b - t * m)
  {
    assert p * b == (a * t + r) * b == t * (a * b) + r * b;
    assert t * (a * b) == p * (t * m);
    assert r * b == p * b - p * (t * m) == p * (b - t * m);
    FactorSign(p, b - t * m);
  }

  lemma FactorSign(p: nat, d: int)
    requires p > 0 && p * d >= 0
    ensures d >= 0
  {
    if d < 0 {
      MulMono(d, -1, p);
    }
  }

  function ProductOf(fs: seq<nat>): nat {
    if fs == [] then 1 else fs[0] * ProductOf(fs[1..])
  }

  /** A factor other than 1 of a product of primes is divisible by one of them. */
  lemma {:induction false} PrimeDivides(fs: seq<nat>, g: nat, q: nat) returns (p: nat, n: nat)
    requires (forall i :: 0 <= i < |fs| ==> Prime(fs[i])) && q >= 2 && g * q == ProductOf(fs)
    ensures p in fs && q == p * n
    decreases |fs|
  {
    if fs == [] {
      MulMono(2, q, g);
      assert false;
    }
    p := fs[0];
    var a, t := q % p, q / p;
    if a == 0 {
      return p, t;
    }
    var m := ProductOf(fs[1..]);
    Residue(p, q, a, t, g, m);
    var g' := Euclid(p, a, g, m - t * g);
    assert (g' * q) * p == (p * g') * q == m * p;
    MulCancel(g' * q, m, p);
    p, n := PrimeDivides(fs[1..], g', q);
  }

  lemma Residue(p: nat, q: nat, a: nat, t: nat, g: nat, m: nat)
    requires p > 0 && q == p * t + a && g * q == p * m
    ensures t * g <= m && a * g == p * (m - t * g)
  {
    assert g * q == p * (t * g) + a * g;
    assert a * g == p * m - p * (t * g) == p * (m - t * g);
    FactorSign(p, m - t * g);
  }

  // ----- the order, and the states it lets rand visit

  /** k calls give every state back. */
  ghost predicate Closed(k: nat) { Multiplies(k, 1) }

  /** A run that changes nothing can be left out. */
  lemma ClosedSkip(n: nat, k: nat, x: int)
    requires Closed(n) && 0 <= x < MODULUS
    ensures After(x, n + k) == After(x, k)
  {
    AfterAdd(x, n, k);
  }

  lemma ClosedDifference(j: nat, k: nat)
    requires Closed(j) && Closed(k) && k <= j
    ensures Closed(j - k)
  {
    forall x | 0 <= x < MODULUS ensures After(x, j - k) == 1 * x % MODULUS {
      ClosedSkip(k, j - k, x);
    }
  }

  lemma {:induction false} ClosedMultiple(g: nat, m: nat)
    requires Closed(g)
    ensures Closed(m * g)
    decreases m
  {
    if m == 0 {
      assert m * g == 0;
    } else {
      ClosedMultiple(g, m - 1);
      Compose(g, 1, (m - 1) * g, 1, 1);
    }
  }

  /** Two closed runs share a closed run that divides both. */
  lemma {:induction false} ClosedGcd(j: nat, k: nat) returns (g: nat, a: nat, b: nat)
    requires Closed(j) && Closed(k) && j > 0 && k > 0
    ensures g > 0 && Closed(g) && j == a * g && k == b * g
    decreases j + k
  {
    if j == k {
      return j, 1, 1;
    } else if j > k {
      ClosedDifference(j, k);
      g, a, b := ClosedGcd(j - k, k);
      assert (a + b) * g == a * g + b * g;
      a := a + b;
    } else {
      ClosedDifference(k, j);
      g, a, b := ClosedGcd(j, k - j);
      assert (a + b) * g == a * g + b * g;
      b := a + b;
    }
  }

  const FACTORS: seq<nat> := [2, 3, 3, 7, 11, 31, 151, 331]

  lemma FactorsOfOrder()
    ensures ProductOf(FACTORS) == ORDER && forall i :: 0 <= i < |FACTORS| ==> Prime(FACTORS[i])
  {
    SmallPrimes();
    assert ProductOf([331]) == 331;
    assert ProductOf([151, 331]) == 49981;
    assert ProductOf([31, 151, 331]) == 1549411;
    assert ProductOf([11, 31, 151, 331]) == 17043521;
    assert ProductOf([7, 11, 31, 151, 331]) == 119304647;
    assert ProductOf([3, 7, 11, 31, 151, 331]) == 357913941;
  }

  lemma NotSooner(p: nat, k: nat)
    requires p in FACTORS && k == ORDER / p
    ensures !Closed(k)
  {
    Orders2And3();
    Orders7And11();
    Orders31To331();
    forall v | v != 1 && Multiplies(k, v) ensures !Closed(k) {
      if Closed(k) {
        OneMultiplier(k, v, 1);
      }
    }
  }

  /** The runs that change nothing are those of a multiple of ORDER calls. */
  lemma OrderDivides(k: nat)
    requires Closed(k) && k > 0
    ensures k % ORDER == 0
  {
    Orders2And3();
    var g, a, b := ClosedGcd(k, ORDER);
    if b >= 2 {
      FactorsOfOrder();
      var p, n := PrimeDivides(FACTORS, g, b);
      assert ORDER == (n * g) * p by {
        assert (p * n) * g == (n * g) * p;
      }
      DivModUnique(ORDER, p, n * g, 0);
      NotSooner(p, n * g);
      ClosedMultiple(g, n);
      assert false;
    }
    assert b == 1;
    DivModUnique(k, ORDER, a, 0);
  }

  /** Every state runs like seed 1, scaled. */
  lemma {:induction false} Linear(x: int, k: nat)
    requires 0 <= x < MODULUS
    ensures After(x, k) == After(1, k) * x % MODULUS
    decreases k
  {
    if k > 0 {
      Linear(x, k - 1);
      var u := After(1, k - 1);
      Product(FACTOR, u, Step(u), x);
    }
  }

  /** The first ORDER states from seed 1 differ. */
  lemma Distinct(i: nat, j: nat)
    requires i < j < ORDER
    ensures After(1, i) != After(1, j)
  {
    var k := j - i;
    if After(1, k) == 1 {
      forall x | 0 <= x < MODULUS ensures After(x, k) == 1 * x % MODULUS {
        Linear(x, k);
      }
      OrderDivides(k);
      assert false;
    }
    AfterAdd(1, k, i);
    InRange(1, k);
    Reversible(After(1, k), 1, i);
  }

  function States(n: nat): set<int> {
    set i {:trigger After(1, i)} | 0 <= i < n :: After(1, i)
  }

  lemma {:induction false} StatesCount(n: nat)
    requires n <= ORDER
    ensures |States(n)| == n
    decreases n
  {
    if n > 0 {
      StatesCount(n - 1);
      forall i | 0 <= i < n - 1 ensures After(1, i) != After(1, n - 1) {
        Distinct(i, n - 1);
      }
      assert States(n) == States(n - 1) + {After(1, n - 1)};
    }
  }

  predicate Nonzero(x: int) { x > 0 }

  function UpTo(n: nat): set<int> {
    set x | 1 <= x <= n && Nonzero(x)
  }

  lemma {:induction false} UpToCount(n: nat)
    ensures |UpTo(n)| == n
    decreases n
  {
    if n > 0 {
      UpToCount(n - 1);
      assert UpTo(n) == UpTo(n - 1) + {n};
    }
  }

  lemma SameSize(a: set<int>, b: set<int>)
    requires a <= b && |a| == |b|
    ensures a == b
  {
    assert b == a + (b - a);
    assert |b| == |a| + |b - a|;
  }

  /** Every state but 0 comes up from seed 1. */
  lemma Covers(n: nat, x: int)
    requires n == ORDER && 1 <= x <= n
    ensures exists i :: 0 <= i < n && After(1, i) == x
  {
    StatesCount(n);
    UpToCount(n);
    forall i | 0 <= i < n ensures After(1, i) in UpTo(n) {
      InRange(1, i);
      if i > 0 {
        ZeroOnlyFromZero(1, i);
      }
    }
    SameSize(States(n), UpTo(n));
    assert x in States(n);
  }

  /** From any seed but 0 every other state but 0 is reached in fewer than ORDER calls. */
  lemma FullPeriod(x: int, y: int) returns (k: nat)
    requires 1 <= x <= ORDER && 1 <= y <= ORDER
    ensures k < ORDER && After(x, k) == y
  {
    Covers(ORDER, x);
    Covers(ORDER, y);
    var i :| 0 <= i < ORDER && After(1, i) == x;
    var j :| 0 <= j < ORDER && After(1, j) == y;
    k := if i <= j then j - i else ORDER + j - i;
    AfterAdd(1, i, k);
    if i > j {
      Orders2And3();
      ClosedSkip(ORDER, j, 1);
    }
  }

  /** A state comes back exactly after the multiples of ORDER calls. */
  lemma PeriodExact(x: int, k: nat)
    requires 1 <= x <= ORDER
    ensures After(x, k) == x <==> k % ORDER == 0
  {
    var n: nat := ORDER;
    Orders2And3();
    var q, r := k / n, k % n;
    ClosedMultiple(n, q);
    ClosedSkip(q * n, r, x);
    assert k == q * n + r;
    Covers(n, x);
    var i :| 0 <= i < n && After(1, i) == x;
    AfterAdd(1, i, r);
    AfterAdd(1, r, i);
    InRange(1, r);
    Reversible(After(1, r), 1, i);
    if r > 0 {
      Distinct(0, r);
    }
  }
}
